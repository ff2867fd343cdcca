/**
 The file layer over the allocator and the in-memory store: create, write, read, truncate and
 unlink, updating the inodes, the allocator and the store in place. Every method is tied to
 the flat view of FlatFiles.
 */
module FileSystem {
  import opened Basics
  import opened FileExtents
  import opened ExtentTable
  import opened Allocator
  import opened FileTable
  import opened Storage
  import F = FlatFiles

  datatype Outcome = Ok | TooManyExtents

  // ---- The flat view ----------------------------------------------------------------------

  /** The bytes of a file. Positions that an ill-formed inode does not map read as 0. */
  ghost function Contents(f: Inode, s: seq<Byte>): (r: seq<Byte>)
    ensures |r| == f.length
  {
    seq(f.length, i requires 0 <= i < f.length =>
      if i < |Blocks(f.extents)| * BLOCK_SIZE && Address(f.extents, i) < |s| then s[Address(f.extents, i)] else 0)
  }

  ghost function View(files: Files, s: seq<Byte>): F.Flat {
    map f | f in files :: Contents(files[f], s)
  }

  lemma {:induction false} FileFits(a: Alloc, files: Files, id: nat)
    requires FsInv(a, files, NUM_BLOCKS, BLOCK_SIZE) && id in files
    ensures Fits(files[id].extents, NUM_BLOCKS * BLOCK_SIZE)
    ensures Injective(files[id].extents)
    ensures files[id].length <= |Blocks(files[id].extents)| * BLOCK_SIZE
  {
    var es, lists := files[id].extents, ListsOf(files);
    forall l: nat | l < |Blocks(es)| ensures BlockFits(es, NUM_BLOCKS * BLOCK_SIZE, l) {
      assert BlockOf(lists, id, l, Blocks(es)[l]);
      BlockFreeOrOwned(a, NUM_BLOCKS, lists, Blocks(es)[l]);
    }
    forall l: nat, m: nat | l < |Blocks(es)| && m < |Blocks(es)| ensures Storage.Apart(es, l, m) {
      if Blocks(es)[l] == Blocks(es)[m] { BlocksAreUnshared(a, NUM_BLOCKS, lists, id, l, id, m); }
    }
    BlocksForRoundsUp(files[id].length, BLOCK_SIZE, |Blocks(es)|);
  }

  /** Bytes of different files have different addresses. */
  lemma {:induction false} FilesApart(a: Alloc, files: Files, f: nat, g: nat, i: nat, j: nat)
    requires FsInv(a, files, NUM_BLOCKS, BLOCK_SIZE) && f in files && g in files && f != g
    requires i < |Blocks(files[f].extents)| * BLOCK_SIZE && j < |Blocks(files[g].extents)| * BLOCK_SIZE
    ensures Address(files[f].extents, i) != Address(files[g].extents, j)
  {
    if Address(files[f].extents, i) == Address(files[g].extents, j) {
      AddressesDiffer(files[f].extents, files[g].extents, i, j);
      BlocksAreUnshared(a, NUM_BLOCKS, ListsOf(files), f, i / BLOCK_SIZE, g, j / BLOCK_SIZE);
    }
  }

  /** Copying data into a file changes those bytes of that file and nothing else. */
  lemma {:induction false} CopyRefines(a: Alloc, files: Files, id: nat, offset: nat, data: seq<Byte>, s: seq<Byte>)
    requires FsInv(a, files, NUM_BLOCKS, BLOCK_SIZE) && id in files && |s| == NUM_BLOCKS * BLOCK_SIZE
    requires offset + |data| <= files[id].length <= |Blocks(files[id].extents)| * BLOCK_SIZE
    requires Below(Addresses(files[id].extents, offset, |data|), |s|)
    ensures F.Step(View(files, s), F.Write(id, offset, data),
                   View(files, Scatter(s, Addresses(files[id].extents, offset, |data|), data)))
  {
    var es := files[id].extents;
    var at := Addresses(es, offset, |data|);
    var s' := Scatter(s, at, data);
    FileFits(a, files, id);
    forall i | 0 <= i < files[id].length
      ensures Contents(files[id], s')[i] ==
              if offset <= i < offset + |data| then data[i - offset] else Contents(files[id], s)[i]
    {
      OwnByte(es, offset, data, s, i);
    }
    forall f | f in files && f != id
      ensures Contents(files[f], s') == Contents(files[f], s)
    {
      forall i | 0 <= i < files[f].length
        ensures Contents(files[f], s')[i] == Contents(files[f], s)[i]
      {
        OtherByte(a, files, id, offset, data, s, f, i);
      }
    }
  }

  lemma {:induction false} OwnByte(es: seq<FileExtent>, offset: nat, data: seq<Byte>, s: seq<Byte>, i: nat)
    requires Fits(es, |s|) && Injective(es)
    requires offset + |data| <= |Blocks(es)| * BLOCK_SIZE && i < |Blocks(es)| * BLOCK_SIZE
    requires Below(Addresses(es, offset, |data|), |s|)
    ensures Address(es, i) < |s|
    ensures Scatter(s, Addresses(es, offset, |data|), data)[Address(es, i)] ==
            if offset <= i < offset + |data| then data[i - offset] else s[Address(es, i)]
  {
    var at := Addresses(es, offset, |data|);
    AddressFits(es, |s|, i);
    forall k, l | 0 <= k < |at| && 0 <= l < |at| && at[k] == at[l] ensures k == l {
      AddressInjective(es, offset + k, offset + l);
    }
    if offset <= i < offset + |data| {
      ScatterHit(s, at, data, i - offset);
    } else {
      forall k | 0 <= k < |at| ensures at[k] != Address(es, i) {
        if at[k] == Address(es, i) { AddressInjective(es, offset + k, i); }
      }
      ScatterMiss(s, at, data, Address(es, i));
    }
  }

  lemma {:induction false} OtherByte(
      a: Alloc, files: Files, id: nat, offset: nat, data: seq<Byte>, s: seq<Byte>, f: nat, i: nat)
    requires FsInv(a, files, NUM_BLOCKS, BLOCK_SIZE) && id in files && |s| == NUM_BLOCKS * BLOCK_SIZE
    requires offset + |data| <= |Blocks(files[id].extents)| * BLOCK_SIZE
    requires Below(Addresses(files[id].extents, offset, |data|), |s|)
    requires f in files && f != id && i < files[f].length
    ensures Contents(files[f], Scatter(s, Addresses(files[id].extents, offset, |data|), data))[i]
            == Contents(files[f], s)[i]
  {
    var at := Addresses(files[id].extents, offset, |data|);
    FileFits(a, files, f);
    AddressFits(files[f].extents, |s|, i);
    forall k | 0 <= k < |at| ensures at[k] != Address(files[f].extents, i) {
      FilesApart(a, files, id, f, offset + k, i);
    }
    ScatterMiss(s, at, data, Address(files[f].extents, i));
  }

  /** A longer list that starts with the same blocks keeps every byte where it was. */
  lemma {:induction false} LongerListSameBytes(f: Inode, g: Inode, s: seq<Byte>, i: nat)
    requires Blocks(f.extents) <= Blocks(g.extents) && i < f.length && i < g.length
    requires f.length <= |Blocks(f.extents)| * BLOCK_SIZE
    ensures Contents(f, s)[i] == Contents(g, s)[i]
  {
    assert Address(f.extents, i) == Address(g.extents, i);
  }

  lemma {:induction false} ResizeRefines(a: Alloc, files: Files, id: nat, g: Inode, s: seq<Byte>)
    requires FsInv(a, files, NUM_BLOCKS, BLOCK_SIZE) && id in files
    requires Blocks(files[id].extents) <= Blocks(g.extents) || Blocks(g.extents) <= Blocks(files[id].extents)
    requires g.length <= |Blocks(g.extents)| * BLOCK_SIZE
    ensures F.Step(View(files, s), F.Truncate(id, g.length), View(files[id := g], s))
  {
    FileFits(a, files, id);
    var f := files[id];
    forall i | 0 <= i < f.length && i < g.length
      ensures Contents(g, s)[i] == Contents(f, s)[i]
    {
      if Blocks(f.extents) <= Blocks(g.extents) {
        LongerListSameBytes(f, g, s, i);
      } else {
        LongerListSameBytes(g, f, s, i);
      }
    }
  }

  /** A resize to the larger of both sizes, then a copy, is a write. */
  lemma {:induction false} ResizeThenCopy(m0: F.Flat, m1: F.Flat, m2: F.Flat, id: nat, offset: nat, data: seq<Byte>)
    requires id in m0 && F.Step(m0, F.Truncate(id, Max(|m0[id]|, offset + |data|)), m1)
    requires F.Step(m1, F.Write(id, offset, data), m2)
    ensures F.Step(m0, F.Write(id, offset, data), m2)
  {
  }

  lemma {:induction false} GatheredIsContents(f: Inode, s: seq<Byte>, offset: nat, out: seq<Byte>)
    requires offset + |out| <= f.length <= |Blocks(f.extents)| * BLOCK_SIZE
    requires Below(Addresses(f.extents, offset, |out|), |s|)
    requires forall k :: 0 <= k < |out| ==> out[k] == s[Addresses(f.extents, offset, |out|)[k]]
    ensures out == Contents(f, s)[offset..offset + |out|]
  {
    forall k | 0 <= k < |out| ensures out[k] == Contents(f, s)[offset + k] {
      assert Addresses(f.extents, offset, |out|)[k] == Address(f.extents, offset + k);
    }
  }

  lemma {:induction false} CreateKeeps(a: Alloc, files: Files, id: nat, s: seq<Byte>)
    requires FsInv(a, files, NUM_BLOCKS, BLOCK_SIZE) && id !in files
    ensures FsInv(a, files[id := Inode(0, [])], NUM_BLOCKS, BLOCK_SIZE)
    ensures F.Step(View(files, s), F.Create(id), View(files[id := Inode(0, [])], s))
  {
    OwnsEmpty(ListsOf(files), Held(a.table), id);
    assert ListsOf(files[id := Inode(0, [])]) == ListsOf(files)[id := []];
    assert View(files[id := Inode(0, [])], s) == View(files, s)[id := []];
  }

  // ---- The file system --------------------------------------------------------------------

  class MetalFs {
    const store: ExtentStore
    var files: Files
    var nextId: nat
    const storage: array<Byte>

    ghost predicate Valid()
      reads this, store, storage
    {
      && storage.Length == NUM_BLOCKS * BLOCK_SIZE
      && FsInv(store.Value(), files, NUM_BLOCKS, BLOCK_SIZE)
      && forall f :: f in files ==> f < nextId
    }

    ghost function Flat(): F.Flat
      reads this, storage
    {
      View(files, storage[..])
    }

    /** Blocks that no file holds. */
    ghost function FreeSpace(): set<nat>
      reads store
    {
      FreeBlocks(Held(store.table), NUM_BLOCKS)
    }

    constructor ()
      ensures Valid() && fresh(store) && fresh(storage)
      ensures Flat() == map[] && |FreeSpace()| == NUM_BLOCKS
    {
      store := new ExtentStore(NUM_BLOCKS);
      files, nextId := map[], 1;
      storage := new Byte[NUM_BLOCKS * BLOCK_SIZE];
      new;
      InitialInv(NUM_BLOCKS);
      BlocksConserved(store.Value(), files, NUM_BLOCKS, BLOCK_SIZE);
      assert OwnedBlocks(ListsOf(files), NUM_BLOCKS) == {};
    }

    method Create() returns (id: nat)
      requires Valid()
      modifies `files, `nextId
      ensures Valid() && id !in old(files) && files == old(files)[id := Inode(0, [])]
      ensures F.Step(old(Flat()), F.Create(id), Flat())
    {
      id, nextId := nextId, nextId + 1;
      CreateKeeps(store.Value(), files, id, storage[..]);
      files := files[id := Inode(0, [])];
    }

    /**
     mtl_expand_inode as written: the length is only updated when a block is added. The blocks
     it adds must be available: running out of space is an assertion in the original.
     */
    method ExpandInode(id: nat, size: nat)
      requires Valid() && id in files
      requires BlocksFor(size, BLOCK_SIZE) <= |Blocks(files[id].extents)| + |FreeSpace()|
      modifies `files, store
      ensures Valid() && id in files && files == old(files)[id := files[id]]
      ensures files[id].length == LiteralLength(old(files[id].length), size, BLOCK_SIZE)
      ensures old(Blocks(files[id].extents)) <= Blocks(files[id].extents)
      ensures Takes(old(FreeSpace()), FreeSpace(), old(Blocks(files[id].extents)), Blocks(files[id].extents))
      ensures |files[id].extents| <= old(|files[id].extents|) + Missing(old(|Blocks(files[id].extents)|), size)
    {
      ghost var a, was := store.Value(), files;
      var endBlocks: int := BlocksFor(size, BLOCK_SIZE);
      var blocks: nat := CountBlocks(files[id].extents);
      var last := Last(files[id].extents);
      while blocks < endBlocks
        invariant Valid() && Growing(a, was, store.Value(), files, id, size)
        invariant blocks == |Blocks(files[id].extents)| && last == Last(files[id].extents)
        decreases endBlocks - blocks
      {
        ghost var b, now := store.Value(), files;
        var r: nat;
        r, last := ExpandRound(id, size, blocks, last);
        GrowingOn(a, was, b, now, store.Value(), files, id, size, r);
        blocks := blocks + r;
      }
      GrowingDone(a, was, store.Value(), files, id, size);
    }

    /** Growing as intended: the length never falls short of what was asked for. */
    method Expand(id: nat, size: nat)
      requires Valid() && id in files
      requires BlocksFor(size, BLOCK_SIZE) <= |Blocks(files[id].extents)| + |FreeSpace()|
      modifies `files, store
      ensures Valid() && id in files && files == old(files)[id := files[id]]
      ensures files[id].length == IntendedLength(old(files[id].length), size)
      ensures old(Blocks(files[id].extents)) <= Blocks(files[id].extents)
      ensures Takes(old(FreeSpace()), FreeSpace(), old(Blocks(files[id].extents)), Blocks(files[id].extents))
      ensures |files[id].extents| <= old(|files[id].extents|) + Missing(old(|Blocks(files[id].extents)|), size)
    {
      ExpandInode(id, size);
      LiteralLengthIff(old(files[id].length), size, BLOCK_SIZE);
      if files[id].length < size {
        LengthKeeps(store.Value(), files, id, size);
        files := files[id := files[id].(length := size)];
      }
    }

    /** One round: reserve what is still missing, and put what was obtained into the inode. */
    method ExpandRound(
        id: nat, size: nat, blocks: nat, last: Option<FileExtent>) returns (r: nat, last': Option<FileExtent>)
      requires Valid() && id in files && blocks == |Blocks(files[id].extents)| && last == Last(files[id].extents)
      requires blocks < BlocksFor(size, BLOCK_SIZE) && |FreeSpace()| > 0
      modifies `files, store
      ensures Valid() && 0 < r <= BlocksFor(size, BLOCK_SIZE) - blocks && id in files
      ensures last' == Last(files[id].extents)
      ensures Round(old(store.Value()), old(files), store.Value(), files, id, size, r)
    {
      ghost var a, was := store.Value(), files;
      LastIsOk(a, files, NUM_BLOCKS, BLOCK_SIZE, id);
      var need := BlocksFor(size, BLOCK_SIZE) - blocks;
      var offset;
      offset, r := store.Reserve(need, last, true, NUM_BLOCKS);
      ReservesEffect(a, NUM_BLOCKS, need, last, Committed, store.Value(), offset, r);
      assert r > 0;  // the original's assertion that space is left
      var es;
      es, last' := AddToExtents(files[id].extents, last, offset, r);
      files := files[id := Inode(ClampedLength(size, blocks + r), es)];
      RoundKeeps(a, was, id, need, store.Value(), offset, r, size, files);
    }

    /** mtl_load_extent_list: the list is handed out only up to MTL_MAX_EXTENTS entries. */
    method LoadExtentList(id: nat) returns (outcome: Outcome, es: seq<FileExtent>)
      requires id in files
      ensures outcome.Ok? <==> |files[id].extents| <= MAX_EXTENTS
      ensures outcome.Ok? ==> es == files[id].extents
    {
      if |files[id].extents| > MAX_EXTENTS { return TooManyExtents, []; }
      return Ok, files[id].extents;
    }

    /**
     mtl_write. The backend ignores a failed load of the extent list and then copies through
     memory it never filled: the inode and the allocator are as for any write, and nothing is
     said about the bytes of any file. That cannot happen if the extents the file has and one
     for every block it lacks are within the maximum.
     */
    method Write(id: nat, data: seq<Byte>, offset: nat) returns (outcome: Outcome)
      requires Valid() && id in files && offset + |data| < storage.Length
      requires BlocksFor(offset + |data|, BLOCK_SIZE) <= |Blocks(files[id].extents)| + |FreeSpace()|
      modifies `files, store, storage
      ensures Valid() && id in files && files == old(files)[id := files[id]]
      ensures files[id].length == Max(old(files[id].length), offset + |data|)
      ensures outcome.Ok? <==> |files[id].extents| <= MAX_EXTENTS
      ensures old(|files[id].extents|) + Missing(old(|Blocks(files[id].extents)|), offset + |data|) <= MAX_EXTENTS ==>
        outcome.Ok?
      ensures outcome.Ok? ==> F.Step(old(Flat()), F.Write(id, offset, data), Flat())
    {
      ghost var a, was, s := store.Value(), files, storage[..];
      Expand(id, offset + |data|);
      FileFits(store.Value(), files, id);
      ResizeRefines(a, was, id, files[id], s);
      var es;
      outcome, es := LoadExtentList(id);
      if outcome.Ok? {
        StorageWrite(storage, es, offset, data);
        CopyRefines(store.Value(), files, id, offset, data, s);
        ResizeThenCopy(View(was, s), View(files, s), Flat(), id, offset, data);
      }
    }

    /**
     mtl_read: as much of the range as lies inside the file. When the list is too long for the
     backend, nothing is said about the bytes that are counted.
     */
    method Read(id: nat, buffer: array<Byte>, size: nat, offset: nat) returns (outcome: Outcome, n: nat)
      requires Valid() && id in files
      requires buffer != storage && size <= buffer.Length && offset + size < storage.Length
      modifies buffer
      ensures n == if |Flat()[id]| < offset then 0 else Min(size, |Flat()[id]| - offset)
      ensures outcome.Ok? <==> n == 0 || |files[id].extents| <= MAX_EXTENTS
      ensures outcome.Ok? && offset <= |Flat()[id]| ==> buffer[..n] == Flat()[id][offset..offset + n]
      ensures buffer[n..] == old(buffer[n..])
    {
      outcome, n := Ok, size;
      if files[id].length < offset {
        n := 0;
      } else if files[id].length < offset + size {
        n := size - (offset + size - files[id].length);
      }
      if n > 0 { outcome := ReadInside(id, buffer, n, offset); }
    }

    method ReadInside(id: nat, buffer: array<Byte>, n: nat, offset: nat) returns (outcome: Outcome)
      requires Valid() && id in files
      requires buffer != storage && n <= buffer.Length && offset + n < storage.Length && offset + n <= files[id].length
      modifies buffer
      ensures outcome.Ok? <==> |files[id].extents| <= MAX_EXTENTS
      ensures outcome.Ok? ==> buffer[..n] == Contents(files[id], storage[..])[offset..offset + n]
      ensures buffer[n..] == old(buffer[n..])
    {
      var es;
      outcome, es := LoadExtentList(id);
      if outcome.Ok? {
        FileFits(store.Value(), files, id);
        StorageRead(storage, es, offset, buffer, n);
        GatheredIsContents(files[id], storage[..], offset, buffer[..n]);
      }
    }

    /** mtl_truncate: grow, or give back every extent and part of one behind the new end. */
    method Truncate(id: nat, length: nat)
      requires Valid() && id in files
      requires BlocksFor(length, BLOCK_SIZE) <= |Blocks(files[id].extents)| + |FreeSpace()|
      modifies `files, store
      ensures Valid() && id in files && files == old(files)[id := files[id]]
      ensures F.Step(old(Flat()), F.Truncate(id, length), Flat())
      ensures length >= old(files[id].length) ==>
        && old(Blocks(files[id].extents)) <= Blocks(files[id].extents)
        && Takes(old(FreeSpace()), FreeSpace(), old(Blocks(files[id].extents)), Blocks(files[id].extents))
      ensures length < old(files[id].length) ==>
        && BlocksFor(length, BLOCK_SIZE) <= old(|Blocks(files[id].extents)|)
        && Blocks(files[id].extents) == old(Blocks(files[id].extents))[..BlocksFor(length, BLOCK_SIZE)]
        && forall b :: b in FreeSpace() <==>
             b in old(FreeSpace()) || b in old(Blocks(files[id].extents))[BlocksFor(length, BLOCK_SIZE)..]
    {
      ghost var a, was := store.Value(), files;
      if length >= files[id].length {
        Expand(id, length);
      } else {
        Shrink(id, length);
        ghost var k := BlocksFor(length, BLOCK_SIZE);
        forall b ensures b in FreeSpace() <==> b in old(FreeSpace()) || b in Blocks(was[id].extents)[k..] {
          if b >= 0 { FreedExactlyTheRest(a, was, store.Value(), files[id], NUM_BLOCKS, BLOCK_SIZE, id, k, b); }
        }
      }
      FileFits(store.Value(), files, id);
      ResizeRefines(a, was, id, files[id], storage[..]);
    }

    method Shrink(id: nat, length: nat)
      requires Valid() && id in files && length < files[id].length
      modifies `files, store
      ensures Valid() && id in files && files == old(files)[id := files[id]] && files[id].length == length
      ensures BlocksFor(length, BLOCK_SIZE) <= old(|Blocks(files[id].extents)|)
      ensures Blocks(files[id].extents) == old(Blocks(files[id].extents))[..BlocksFor(length, BLOCK_SIZE)]
    {
      var es := files[id].extents;
      ghost var a, was := store.Value(), files;
      FileFits(a, files, id);
      var previousEnd := 0;
      for i := 0 to |es|
        invariant previousEnd == |Blocks(es[..i])| * BLOCK_SIZE
        invariant Shrinking(a, was, store.Value(), files, id, length, i)
      {
        previousEnd := ShrinkOne(id, es, i, length, previousEnd, a, was);
      }
      assert es[..|es|] == es && es[|es|..] == [];
      ShrinkDone(store.Value(), was, files, id, length);
    }

    /** One extent of the old list: kept, cut, or given back. */
    method ShrinkOne(id: nat, es: seq<FileExtent>, i: nat, length: nat, previousEnd: nat,
                     ghost a: Alloc, ghost was: Files)
      returns (extentEnd: nat)
      requires storage.Length == NUM_BLOCKS * BLOCK_SIZE && FsInv(a, was, NUM_BLOCKS, BLOCK_SIZE)
      requires id in was && es == was[id].extents && i < |es| && previousEnd == |Blocks(es[..i])| * BLOCK_SIZE
      requires Shrinking(a, was, store.Value(), files, id, length, i)
      modifies `files, store
      ensures extentEnd == |Blocks(es[..i + 1])| * BLOCK_SIZE
      ensures Shrinking(a, was, store.Value(), files, id, length, i + 1)
    {
      NextExtent(es, i);
      extentEnd := previousEnd + es[i].length * BLOCK_SIZE;
      if previousEnd > length {
        FreeFirst(-1, es, i);
      } else if extentEnd > length {
        CutExtent(id, es, i, length, BlocksFor(length - previousEnd, BLOCK_SIZE));
      }
    }

    /** mtl_unlink of an existing file: give back every extent, then the inode. */
    method Unlink(id: nat)
      requires Valid() && id in files
      modifies `files, store
      ensures Valid() && files == old(files) - {id}
      ensures F.Step(old(Flat()), F.Unlink(id), Flat())
    {
      var es := files[id].extents;
      assert ListsOf(files)[id := es] == ListsOf(files) && es[0..] == es;
      for i := 0 to |es|
        invariant files == old(files)
        invariant Sound(store.Value(), ListsOf(files)[id := es[i..]], NUM_BLOCKS)
      {
        FreeFirst(id, es, i);
      }
      assert es[|es|..] == [];
      UnlinkDone(store.Value(), files, id, storage[..]);
      files := files - {id};
    }

    /** Give back the first run an owner has left. */
    method FreeFirst(ghost owner: int, es: seq<FileExtent>, i: nat)
      requires i < |es| && Sound(store.Value(), ListsOf(files)[owner := es[i..]], NUM_BLOCKS)
      modifies store
      ensures Sound(store.Value(), ListsOf(files)[owner := es[i + 1..]], NUM_BLOCKS)
    {
      ghost var l := ListsOf(files)[owner := es[i..]];
      assert Slot(l, owner, 0);
      EntryIsHeld(store.Value(), l, owner, 0);
      DropRun(store.Value(), l, NUM_BLOCKS, owner);
      assert l[owner := l[owner][1..]] == ListsOf(files)[owner := es[i + 1..]];
      store.Release(es[i].offset, NUM_BLOCKS);
    }

    /** The extent around the new end: what lies behind it goes, in the allocator and in the inode. */
    method CutExtent(id: nat, es: seq<FileExtent>, i: nat, length: nat, keep: nat)
      requires FsInv(store.Value(), files, NUM_BLOCKS, BLOCK_SIZE)
      requires id in files && es == files[id].extents && i < |es|
      requires |Blocks(es[..i])| * BLOCK_SIZE <= length < |Blocks(es[..i])| * BLOCK_SIZE + es[i].length * BLOCK_SIZE
      requires keep == BlocksFor(length - |Blocks(es[..i])| * BLOCK_SIZE, BLOCK_SIZE)
      modifies `files, store
      ensures id in files && files == old(files)[id := files[id]]
      ensures Sound(store.Value(), ListsOf(files)[-1 := es[i + 1..]], NUM_BLOCKS)
      ensures ShrunkTo(es, length, files[id])
    {
      CutInode(store.Value(), files, id, i, length, keep);
      if keep > 0 {
        store.Truncate(es[i].offset, keep, NUM_BLOCKS);
        files := files[id := Inode(length, es[..i + 1][i := es[i].(length := keep)])];
        assert files[id].extents == Cut(es, i, keep);
      } else {
        store.Release(es[i].offset, NUM_BLOCKS);
        files := files[id := Inode(length, es[..i])];
      }
    }
  }

  lemma {:induction false} UnlinkDone(a: Alloc, files: Files, id: nat, s: seq<Byte>)
    requires id in files && forall f :: f in files ==> FileOk(files[f], BLOCK_SIZE)
    requires Sound(a, ListsOf(files)[id := []], NUM_BLOCKS)
    ensures FsInv(a, files - {id}, NUM_BLOCKS, BLOCK_SIZE)
    ensures F.Step(View(files, s), F.Unlink(id), View(files - {id}, s))
  {
    OwnsEmpty(ListsOf(files)[id := []], Held(a.table), id);
    assert ListsOf(files)[id := []] - {id} == ListsOf(files - {id});
    assert View(files - {id}, s) == View(files, s) - {id};
  }

  lemma {:induction false} CutInode(a: Alloc, files: Files, id: nat, i: nat, length: nat, keep: nat)
    requires FsInv(a, files, NUM_BLOCKS, BLOCK_SIZE) && id in files && i < |files[id].extents|
    requires var es := files[id].extents; var x := |Blocks(es[..i])| * BLOCK_SIZE;
      x <= length < x + es[i].length * BLOCK_SIZE && keep == BlocksFor(length - x, BLOCK_SIZE)
    ensures var es := files[id].extents;
      var o, g := es[i].offset, Inode(length, Cut(es, i, keep));
      && o in Held(a.table) && keep <= es[i].length == Held(a.table)[o]
      && Sound(TruncateRun(a, o, keep), ListsOf(files[id := g])[-1 := es[i + 1..]], NUM_BLOCKS)
      && ShrunkTo(es, length, g)
  {
    var l, es := ListsOf(files), files[id].extents;
    assert Slot(l, id, i);
    EntryIsHeld(a, l, id, i);
    assert FileOk(files[id], BLOCK_SIZE);
    CutBlocks(es, i, keep);
    ShrinkBoundary(a, l, NUM_BLOCKS, id, i, keep);
    assert ListsOf(files[id := Inode(length, Cut(es, i, keep))]) == l[id := Cut(es, i, keep)];
  }

  /** The inode of a file cut down to a length: the first blocks of the old list, no more. */
  ghost predicate ShrunkTo(es: seq<FileExtent>, length: nat, f: Inode) {
    && f.length == length
    && BlocksFor(length, BLOCK_SIZE) <= |Blocks(es)|
    && Blocks(f.extents) == Blocks(es)[..BlocksFor(length, BLOCK_SIZE)]
    && Spread(f.extents)
  }

  /** Before extent i of the old list: nothing has happened yet, or the inode is cut and the rest is set aside. */
  ghost predicate Shrinking(a: Alloc, was: Files, b: Alloc, files: Files, id: nat, length: nat, i: nat) {
    && id in was && id in files && files == was[id := files[id]] && i <= |was[id].extents|
    && if |Blocks(was[id].extents[..i])| * BLOCK_SIZE <= length then files == was && b == a
       else && Sound(b, ListsOf(files)[-1 := was[id].extents[i..]], NUM_BLOCKS)
            && ShrunkTo(was[id].extents, length, files[id])
  }

  lemma {:induction false} ShrinkDone(a: Alloc, was: Files, files: Files, id: nat, length: nat)
    requires id in was && id in files && files == was[id := files[id]] && ShrunkTo(was[id].extents, length, files[id])
    requires Sound(a, ListsOf(files)[-1 := []], NUM_BLOCKS)
    requires forall f :: f in was ==> FileOk(was[f], BLOCK_SIZE)
    ensures FsInv(a, files, NUM_BLOCKS, BLOCK_SIZE)
  {
    OwnsEmpty(ListsOf(files)[-1 := []], Held(a.table), -1);
    assert ListsOf(files)[-1 := []] - {-1} == ListsOf(files);
  }

  /** The length after a round: all the room there is, up to the size asked for. */
  function ClampedLength(size: nat, blocks: nat): nat {
    if size > blocks * BLOCK_SIZE then blocks * BLOCK_SIZE else size
  }

  /** What one round does: r more blocks behind the ones of the file, taken from the free ones. */
  ghost predicate Round(a: Alloc, was: Files, b: Alloc, files: Files, id: nat, size: nat, r: nat) {
    && id in was
    && id in files
    && files == was[id := files[id]]
    && Blocks(was[id].extents) <= Blocks(files[id].extents)
    && |Blocks(files[id].extents)| == |Blocks(was[id].extents)| + r
    && files[id].length == ClampedLength(size, |Blocks(files[id].extents)|)
    && |FreeBlocks(Held(b.table), NUM_BLOCKS)| == |FreeBlocks(Held(a.table), NUM_BLOCKS)| - r
    && |files[id].extents| <= |was[id].extents| + 1
  }

  /** Blocks a file lacks for a size. */
  function Missing(blocks: nat, size: nat): nat {
    if blocks < BlocksFor(size, BLOCK_SIZE) then BlocksFor(size, BLOCK_SIZE) - blocks else 0
  }

  lemma {:induction false} RoundKeeps(
      a: Alloc, files: Files, id: nat, need: nat, b: Alloc, o: nat, r: nat, size: nat, files': Files)
    requires FsInv(a, files, NUM_BLOCKS, BLOCK_SIZE) && id in files && 0 < r <= need
    requires LastOk(a, Last(files[id].extents)) && Reserves(a, need, Last(files[id].extents), Committed, b, o, r)
    requires BlocksFor(size, BLOCK_SIZE) == |Blocks(files[id].extents)| + need
    requires var es := files[id].extents;
      files' == files[id := Inode(ClampedLength(size, |Blocks(es)| + r), Grown(es, o, r))]
    ensures FsInv(b, files', NUM_BLOCKS, BLOCK_SIZE)
    ensures Round(a, files, b, files', id, size, r)
  {
    var es := files[id].extents;
    GrownBlocks(es, o, r);
    ClampedFills(size, |Blocks(es)| + r);
    GrowKeeps(a, files, NUM_BLOCKS, BLOCK_SIZE, id, need, b, o, r, ClampedLength(size, |Blocks(es)| + r));
  }

  lemma {:induction false} ClampedFills(size: nat, blocks: nat)
    requires blocks <= BlocksFor(size, BLOCK_SIZE)
    ensures BlocksFor(ClampedLength(size, blocks), BLOCK_SIZE) == blocks
  {
  }

  /** Between the rounds: nothing has happened yet, or the file is as long as its blocks allow. */
  ghost predicate Growing(a: Alloc, was: Files, b: Alloc, files: Files, id: nat, size: nat) {
    && id in was
    && id in files
    && files == was[id := files[id]]
    && Blocks(was[id].extents) <= Blocks(files[id].extents)
    && |FreeBlocks(Held(b.table), NUM_BLOCKS)| + |Blocks(files[id].extents)|
       == |FreeBlocks(Held(a.table), NUM_BLOCKS)| + |Blocks(was[id].extents)|
    && |files[id].extents| - |was[id].extents| <= |Blocks(files[id].extents)| - |Blocks(was[id].extents)|
    && if |Blocks(files[id].extents)| == |Blocks(was[id].extents)| then files[id] == was[id] && b == a
       else && |Blocks(files[id].extents)| <= BlocksFor(size, BLOCK_SIZE)
            && files[id].length == ClampedLength(size, |Blocks(files[id].extents)|)
  }

  lemma {:induction false} GrowingOn(
      a: Alloc, was: Files, b: Alloc, now: Files, c: Alloc, files: Files, id: nat, size: nat, r: nat)
    requires Growing(a, was, b, now, id, size) && Round(b, now, c, files, id, size, r)
    requires 0 < r <= BlocksFor(size, BLOCK_SIZE) - |Blocks(now[id].extents)|
    ensures Growing(a, was, c, files, id, size)
  {
  }

  /** The blocks a file gained are exactly those that are no longer free. */
  ghost predicate Takes(free: set<nat>, free': set<nat>, blocks: seq<nat>, blocks': seq<nat>) {
    && |free'| + |blocks'| == |free| + |blocks| && |blocks| <= |blocks'|
    && forall b :: b in free <==> b in free' || b in blocks'[|blocks|..]
  }

  lemma {:induction false} GrowingDone(a: Alloc, was: Files, b: Alloc, files: Files, id: nat, size: nat)
    requires Growing(a, was, b, files, id, size) && |Blocks(files[id].extents)| >= BlocksFor(size, BLOCK_SIZE)
    requires FsInv(a, was, NUM_BLOCKS, BLOCK_SIZE) && FsInv(b, files, NUM_BLOCKS, BLOCK_SIZE)
    ensures files[id].length == LiteralLength(was[id].length, size, BLOCK_SIZE)
    ensures Takes(FreeBlocks(Held(a.table), NUM_BLOCKS), FreeBlocks(Held(b.table), NUM_BLOCKS),
                  Blocks(was[id].extents), Blocks(files[id].extents))
    ensures |files[id].extents| <= |was[id].extents| + Missing(|Blocks(was[id].extents)|, size)
  {
    assert FileOk(was[id], BLOCK_SIZE);
    var k := |Blocks(was[id].extents)|;
    assert Blocks(was[id].extents) == Blocks(files[id].extents)[..k] && files[id := was[id]] == was;
    forall x: nat ensures x in FreeBlocks(Held(a.table), NUM_BLOCKS) <==>
      x in FreeBlocks(Held(b.table), NUM_BLOCKS) || x in Blocks(files[id].extents)[k..]
    {
      FreedExactlyTheRest(b, files, a, was[id], NUM_BLOCKS, BLOCK_SIZE, id, k, x);
    }
  }

  /** mtl_extend_last_extent_in_file if the last extent grew, mtl_add_extent_to_file if there is a new one. */
  method AddToExtents(es: seq<FileExtent>, last: Option<FileExtent>, offset: nat, r: nat)
    returns (es': seq<FileExtent>, last': Option<FileExtent>)
    requires last == Last(es)
    ensures es' == Grown(es, offset, r) && last' == Last(es')
  {
    if last.Some? && last.value.offset == offset {
      last' := Some(FileExtent(offset, last.value.length + r));
      es' := es[|es| - 1 := last'.value];
    } else {
      last' := Some(FileExtent(offset, r));
      es' := es + [last'.value];
    }
  }

  method CountBlocks(es: seq<FileExtent>) returns (n: nat)
    ensures n == |Blocks(es)|
  {
    n := 0;
    for i := 0 to |es|
      invariant n == |Blocks(es[..i])|
    {
      assert es[..i + 1][..i] == es[..i];
      n := n + es[i].length;
    }
    assert es[..|es|] == es;
  }

  lemma {:induction false} LengthKeeps(a: Alloc, files: Files, id: nat, length: nat)
    requires FsInv(a, files, NUM_BLOCKS, BLOCK_SIZE) && id in files
    requires files[id].length < length && BlocksFor(length, BLOCK_SIZE) <= |Blocks(files[id].extents)|
    ensures FsInv(a, files[id := files[id].(length := length)], NUM_BLOCKS, BLOCK_SIZE)
  {
    assert FileOk(files[id], BLOCK_SIZE);
    BlocksForMonotone(files[id].length, length, BLOCK_SIZE);
    assert ListsOf(files[id := files[id].(length := length)]) == ListsOf(files);
  }
}
