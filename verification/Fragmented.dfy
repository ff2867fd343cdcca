/**
 A file with more extents than the backend loads: two files that grow by one block in turn. Each
 growth is one round of expanding an inode, on the store of the in-memory backend.
 */
module Fragmented {
  import opened Basics
  import opened FileExtents
  import opened ExtentTable
  import opened FileTable
  import opened Storage
  import opened FileSystem

  /** The first j blocks in use, one run each; the rest one free run. */
  function Alternated(j: nat): Alloc
    requires j < NUM_BLOCKS
  {
    Alloc(map i: nat | i <= j :: RunAt(j, i), map[Node(NUM_BLOCKS - j, j) := j])
  }

  function RunAt(j: nat, i: nat): Extent
    requires i <= j < NUM_BLOCKS
  {
    if i < j then Extent(1, Committed, Node(NUM_BLOCKS - i, i))
    else Extent(NUM_BLOCKS - j, Free, Node(NUM_BLOCKS - j, j))
  }

  /** A file of n single blocks, every other one from p on. */
  function Column(p: nat, n: nat): Inode {
    Inode(n * BLOCK_SIZE, seq(n, k requires 0 <= k < n => FileExtent(2 * k + p, 1)))
  }

  function Two(j: nat): Files { map[1 := Column(0, (j + 1) / 2), 2 := Column(1, j / 2)] }

  /** The file whose turn it is. */
  function Turn(j: nat): nat { if j % 2 == 0 then 1 else 2 }

  /** File id takes one block of the free run that heap node x names; the run behind its last block is in use. */
  ghost predicate Growth(a: Alloc, files: Files, id: nat, x: Node, b: Alloc, files': Files) {
    && id in files && files[id].length % BLOCK_SIZE == 0 && !Extends(a, Last(files[id].extents))
    && x in a.heap && x.v in a.table && a.table[x.v].length > 0 && b == ReserveAt(a, x.v, 1, Committed)
    && files' == files[id := Inode(files[id].length + BLOCK_SIZE, Grown(files[id].extents, x.v, 1))]
  }

  /** Behind a file's last block comes the other file's, so a new extent starts at block j. */
  lemma {:induction false} GrowsByOne(j: nat)
    requires j + 1 < NUM_BLOCKS
    ensures Growth(Alternated(j), Two(j), Turn(j), Node(NUM_BLOCKS - j, j), Alternated(j + 1), Two(j + 1))
  {
    var es := Two(j)[Turn(j)].extents;
    assert |es| == j / 2 && (es != [] ==> es[|es| - 1] == FileExtent(j - 2, 1));
    assert Grown(es, j, 1) == Column(j % 2, j / 2 + 1).extents;
    CarvesOne(j);
  }

  lemma {:induction false} CarvesOne(j: nat)
    requires j + 1 < NUM_BLOCKS
    ensures var a := Alternated(j);
      && Node(NUM_BLOCKS - j, j) in a.heap && j in a.table && a.table[j].length == NUM_BLOCKS - j
      && ReserveAt(a, j, 1, Committed) == Alternated(j + 1)
  {
    var a, b, r := Alternated(j), Alternated(j + 1), ReserveAt(Alternated(j), j, 1, Committed);
    assert a.heap - {Node(NUM_BLOCKS - j, j)} == map[];
    assert r.heap == b.heap;
    assert r.table == b.table;
  }

  /** Every one of these states is sound: the growths lead from one to the next. */
  lemma {:induction false} AlternatedIsSound(j: nat)
    requires j < NUM_BLOCKS
    ensures FsInv(Alternated(j), Two(j), NUM_BLOCKS, BLOCK_SIZE)
  {
    if j == 0 {
      EmptyFilesAreSound();
    } else {
      AlternatedIsSound(j - 1);
      NextIsSound(j - 1);
    }
  }

  lemma {:induction false} NextIsSound(j: nat)
    requires j + 1 < NUM_BLOCKS && FsInv(Alternated(j), Two(j), NUM_BLOCKS, BLOCK_SIZE)
    ensures FsInv(Alternated(j + 1), Two(j + 1), NUM_BLOCKS, BLOCK_SIZE)
  {
    GrowsByOne(j);
    OneGrowth(Alternated(j), Two(j), Turn(j), Node(NUM_BLOCKS - j, j), Alternated(j + 1), Two(j + 1));
  }

  /** A round of expanding an inode: one block from the free run that the heap node x names. */
  lemma {:induction false} OneGrowth(a: Alloc, files: Files, id: nat, x: Node, b: Alloc, files': Files)
    requires FsInv(a, files, NUM_BLOCKS, BLOCK_SIZE) && Growth(a, files, id, x, b, files')
    ensures LastOk(a, Last(files[id].extents))
    ensures Reserves(a, 1, Last(files[id].extents), Committed, b, x.v, 1)
    ensures FsInv(b, files', NUM_BLOCKS, BLOCK_SIZE)
  {
    LastIsOk(a, files, NUM_BLOCKS, BLOCK_SIZE, id);
    assert FileOk(files[id], BLOCK_SIZE);
    GrowKeeps(a, files, NUM_BLOCKS, BLOCK_SIZE, id, 1, b, x.v, 1, files[id].length + BLOCK_SIZE);
  }

  lemma {:induction false} EmptyFilesAreSound()
    ensures FsInv(Alternated(0), Two(0), NUM_BLOCKS, BLOCK_SIZE)
  {
    InitialInv(NUM_BLOCKS);
    assert Alternated(0) == Initial(NUM_BLOCKS);
    TwoCreated(Alternated(0));
    assert Column(0, 0) == Column(1, 0) == Inode(0, []);
  }

  lemma {:induction false} TwoCreated(a: Alloc)
    requires a == Initial(NUM_BLOCKS) && Inv(a, NUM_BLOCKS)
    ensures FsInv(a, map[1 := Inode(0, []), 2 := Inode(0, [])], NUM_BLOCKS, BLOCK_SIZE)
  {
    var none: Files := map[];
    assert Held(a.table) == map[];
    CreateKeeps(a, none, 1, []);
    CreateKeeps(a, none[1 := Inode(0, [])], 2, []);
    assert none[1 := Inode(0, [])][2 := Inode(0, [])] == map[1 := Inode(0, []), 2 := Inode(0, [])];
  }

  /** After 1025 growths the first file has 513 extents, one more than the backend loads. */
  lemma {:induction false} FileBeyondTheMaximum()
    ensures FsInv(Alternated(1025), Two(1025), NUM_BLOCKS, BLOCK_SIZE)
    ensures |Two(1025)[1].extents| == MAX_EXTENTS + 1
  {
    AlternatedIsSound(1025);
  }
}
