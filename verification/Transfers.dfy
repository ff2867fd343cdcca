/**
 Splitting a transfer into chunks that stay inside one storage block, with the physical
 address of each chunk taken from the extent maps; and the blocks to preload before a write.
 */
module Transfers {
  import opened Basics
  import opened FileExtents
  import opened ExtentMap

  const BLOCK := 262144          // StorageBlockSize
  const PAGEFILE_BLOCKS := 128
  const PAGEFILE := 33554432     // PagefileSize = 128 blocks
  const HALF := 0x8000_0000      // 1 << 31
  const NVME_DRAM_READ := 0
  const NVME_DRAM_WRITE := 0x8000_0000

  datatype MapType = NoMap | DRAM | NVMe | DRAMAndNVMe
  datatype Part = Part(address: nat, size: nat, last: bool)

  // ---- Splitting --------------------------------------------------------------------------

  /** What is left of a block from an address on. */
  function Room(address: nat): nat { BLOCK - address % BLOCK }

  /** The sizes of the chunks of [address, address + size). */
  function Sizes(address: nat, size: nat): (r: seq<nat>)
    ensures size == 0 <==> r == []
    decreases size
  {
    if size == 0 then []
    else var n := Min(size, Room(address)); [n] + Sizes(address + n, size - n)
  }

  /** Where chunk k starts. */
  function Start(address: nat, sizes: seq<nat>, k: nat): nat
    requires k <= |sizes|
  {
    if k == 0 then address else Start(address, sizes, k - 1) + sizes[k - 1]
  }

  /** Chunks are positive, do not cross a block boundary, and lie in successive blocks. */
  lemma {:induction false} ChunksInBlocks(address: nat, size: nat, k: nat)
    requires k < |Sizes(address, size)|
    ensures Sizes(address, size)[k] > 0
    ensures Start(address, Sizes(address, size), k) % BLOCK + Sizes(address, size)[k] <= BLOCK
    ensures Start(address, Sizes(address, size), k) / BLOCK == address / BLOCK + k
    ensures Start(address, Sizes(address, size), k) + Sizes(address, size)[k] <= address + size
    ensures k + 1 == |Sizes(address, size)| <==>
            Start(address, Sizes(address, size), k) + Sizes(address, size)[k] == address + size
    decreases size
  {
    var n := Min(size, Room(address));
    var rest := Sizes(address + n, size - n);
    if k == 0 {
    } else {
      ChunksInBlocks(address + n, size - n, k - 1);
      StartShift(address, n, rest, k);
      assert n == Room(address);
    }
  }

  lemma {:induction false} StartShift(address: nat, n: nat, rest: seq<nat>, k: nat)
    requires 0 < k <= |rest| + 1
    ensures Start(address, [n] + rest, k) == Start(address + n, rest, k - 1)
  {
    if k == 1 {
    } else {
      StartShift(address, n, rest, k - 1);
    }
  }

  /** The chunks add up to the transfer. */
  lemma {:induction false} ChunksAddUp(address: nat, size: nat)
    ensures Start(address, Sizes(address, size), |Sizes(address, size)|) == address + size
    decreases size
  {
    if size == 0 {
    } else {
      var n := Min(size, Room(address));
      var rest := Sizes(address + n, size - n);
      ChunksAddUp(address + n, size - n);
      StartShift(address, n, rest, |rest| + 1);
    }
  }

  // ---- Translation ------------------------------------------------------------------------

  /** Physical address of a logical byte through a block list. */
  function Translate(blocks: seq<nat>, x: nat): nat
    requires x / BLOCK < |blocks|
  {
    blocks[x / BLOCK] * BLOCK + x % BLOCK
  }

  /** The byte addresses of one chunk. */
  function Bytes(address: nat, size: nat): (r: seq<nat>)
    ensures |r| == size && forall i :: 0 <= i < size ==> r[i] == address + i
  {
    seq<nat>(size, i => address + i)
  }

  function AllBytes(parts: seq<Part>): seq<nat> {
    if parts == [] then []
    else AllBytes(parts[..|parts| - 1]) + Bytes(parts[|parts| - 1].address, parts[|parts| - 1].size)
  }

  /** Part k is chunk k of the transfer, in block k of the list. */
  ghost predicate Placed(address: nat, size: nat, blocks: seq<nat>, parts: seq<Part>, k: nat) {
    && k < |parts| == |Sizes(address, size)|
    && k < |blocks|
    && parts[k] == Part(blocks[k] * BLOCK + Start(address, Sizes(address, size), k) % BLOCK,
                        Sizes(address, size)[k], k + 1 == |parts|)
  }

  ghost predicate Maps(address: nat, size: nat, blocks: seq<nat>, parts: seq<Part>) {
    && |parts| == |Sizes(address, size)|
    && forall k: nat {:trigger Placed(address, size, blocks, parts, k)} ::
         k < |parts| ==> Placed(address, size, blocks, parts, k)
  }

  /** Byte i of a transfer lands on the translation of logical byte from + i. */
  ghost predicate Reaches(bytes: seq<nat>, i: nat, blocks: seq<nat>, from: nat) {
    && i < |bytes|
    && (from + i) / BLOCK < |blocks|
    && bytes[i] == Translate(blocks, from + i)
  }

  ghost predicate ReachesAll(bytes: seq<nat>, blocks: seq<nat>, from: nat) {
    forall i: nat {:trigger Reaches(bytes, i, blocks, from)} ::
      i < |bytes| ==> Reaches(bytes, i, blocks, from)
  }

  /**
   The chunks' physical byte ranges, one after the other, are the translation of the logical
   range byte by byte, through the list of the blocks visited.
   */
  lemma {:induction false} PartsTranslateTheRange(
      address: nat, size: nat, blocks: seq<nat>, parts: seq<Part>, j: nat)
    requires Maps(address, size, blocks, parts) && j <= |parts|
    ensures address + |AllBytes(parts[..j])| == Start(address, Sizes(address, size), j)
    ensures ReachesAll(AllBytes(parts[..j]), blocks, address % BLOCK)
  {
    if j == 0 {
    } else {
      var k := j - 1;
      PartsTranslateTheRange(address, size, blocks, parts, k);
      assert parts[..j][..k] == parts[..k];
      assert Placed(address, size, blocks, parts, k);
      var from := address % BLOCK;
      var pre, chunk := AllBytes(parts[..k]), Bytes(parts[k].address, parts[k].size);
      assert AllBytes(parts[..j]) == pre + chunk;
      forall i: nat | i < |pre + chunk|
        ensures Reaches(pre + chunk, i, blocks, from)
      {
        if i >= |pre| {
          ByteOfChunk(address, size, k, i);
        } else {
          assert Reaches(pre, i, blocks, from);
        }
      }
    }
  }

  /** Byte i of the transfer, if it lies in chunk k, lies in the k-th block visited. */
  lemma {:induction false} ByteOfChunk(address: nat, size: nat, k: nat, i: nat)
    requires k < |Sizes(address, size)|
    requires var s := Start(address, Sizes(address, size), k); s <= address + i < s + Sizes(address, size)[k]
    ensures var s, x := Start(address, Sizes(address, size), k), address % BLOCK + i;
      x / BLOCK == k && x % BLOCK == s % BLOCK + (address + i - s)
  {
    ChunksInBlocks(address, size, k);
    var s := Start(address, Sizes(address, size), k);
    InOneBlock(s, Sizes(address, size)[k], address + i);
  }

  lemma {:induction false} InOneBlock(start: nat, n: nat, x: nat)
    requires start % BLOCK + n <= BLOCK && start <= x < start + n
    ensures x / BLOCK == start / BLOCK
    ensures x % BLOCK == start % BLOCK + (x - start)
  {
  }

  /** A transfer has one chunk for every block it touches. */
  lemma {:induction false} CountChunks(address: nat, size: nat)
    requires size > 0
    ensures |Sizes(address, size)| == (address % BLOCK + size - 1) / BLOCK + 1
  {
    var k := |Sizes(address, size)| - 1;
    ChunksInBlocks(address, size, k);
    ByteOfChunk(address, size, k, size - 1);
  }

  /** Bytes that go through one list of blocks go through another one exactly if the lists agree. */
  lemma {:induction false} SameBytesIffSameBlocks(
      address: nat, size: nat, bytes: seq<nat>, blocks: seq<nat>, want: seq<nat>)
    requires |bytes| == size && |blocks| == |want| == |Sizes(address, size)|
    requires ReachesAll(bytes, blocks, address % BLOCK)
    ensures ReachesAll(bytes, want, address % BLOCK) <==> blocks == want
  {
    if ReachesAll(bytes, want, address % BLOCK) {
      forall k | 0 <= k < |want| ensures blocks[k] == want[k] {
        ChunksInBlocks(address, size, k);
        ChunkAt(address, size, k);
        var i := Start(address, Sizes(address, size), k) - address;
        ByteOfChunk(address, size, k, i);
        assert Reaches(bytes, i, blocks, address % BLOCK) && Reaches(bytes, i, want, address % BLOCK);
      }
    }
  }

  // ---- Issuing ----------------------------------------------------------------------------

  /** Chunk k is what the loop computes from where it is. */
  lemma {:induction false} ChunkAt(address: nat, size: nat, k: nat)
    requires k <= |Sizes(address, size)|
    ensures address <= Start(address, Sizes(address, size), k) <= address + size
    ensures k < |Sizes(address, size)| <==> Start(address, Sizes(address, size), k) < address + size
    ensures k < |Sizes(address, size)| ==>
      var s := Start(address, Sizes(address, size), k);
      Sizes(address, size)[k] == Min(address + size - s, Room(s))
    decreases size
  {
    if k == 0 {
    } else {
      var n := Min(size, Room(address));
      ChunkAt(address + n, size - n, k - 1);
      StartShift(address, n, Sizes(address + n, size - n), k);
    }
  }

  predicate UsesDram(m: MapType) { m.DRAM? || m.DRAMAndNVMe? }
  predicate UsesNvme(m: MapType) { m.NVMe? || m.DRAMAndNVMe? }

  /** The page file is a window: the first index into it wraps. */
  function DramBase(m: MapType, address: nat): nat {
    if m.DRAM? then address / BLOCK else address % PAGEFILE / BLOCK
  }

  /** Where the data of a chunk goes, given the block the DRAM map stands on. */
  function Target(m: MapType, read: bool, current: nat, dramBlock: nat): nat {
    match m
    case NoMap => current
    case NVMe => (if read then NVME_DRAM_READ else NVME_DRAM_WRITE) + current % HALF
    case _ => dramBlock * BLOCK + current % BLOCK
  }

  /** What is queued for the NVMe side with a chunk. */
  function Queued(m: MapType, current: nat, nvmeBlock: nat): seq<nat> {
    if UsesNvme(m) then [nvmeBlock * BLOCK + current % BLOCK] else []
  }

  /** The blocks a map stands on during n chunks from a cursor on, wherever that leads. */
  function Visited(es: seq<FileExtent>, c: Cursor, n: nat, literal: bool): (r: seq<nat>)
    ensures |r| == n && forall k :: 0 <= k < n ==> r[k] == Path(es, c, k, literal).pblock
  {
    seq(n, k requires 0 <= k < n => Path(es, c, k, literal).pblock)
  }

  /** The k-th part of a transfer, and what is queued with it, given the blocks visited. */
  ghost predicate IssuedAs(m: MapType, read: bool, address: nat, sizes: seq<nat>, dram: seq<nat>, nvme: seq<nat>,
                           part: Part, queue: seq<nat>, k: nat)
    requires k < |sizes| == |dram| == |nvme|
  {
    var s := Start(address, sizes, k);
    && part == Part(Target(m, read, s, dram[k]), sizes[k], k + 1 == |sizes|)
    && queue == Queued(m, s, nvme[k])
  }

  ghost predicate Issued(m: MapType, read: bool, address: nat, sizes: seq<nat>, dram: seq<nat>, nvme: seq<nat>,
                         parts: seq<Part>, queued: seq<seq<nat>>, k: nat)
    requires k < |parts| == |queued| <= |sizes| == |dram| == |nvme|
  {
    IssuedAs(m, read, address, sizes, dram, nvme, parts[k], queued[k], k)
  }

  ghost predicate AllIssued(m: MapType, read: bool, address: nat, sizes: seq<nat>, dram: seq<nat>, nvme: seq<nat>,
                            parts: seq<Part>, queued: seq<seq<nat>>) {
    && |parts| == |queued| <= |sizes| == |dram| == |nvme|
    && forall k: nat {:trigger Issued(m, read, address, sizes, dram, nvme, parts, queued, k)} ::
         k < |parts| ==> Issued(m, read, address, sizes, dram, nvme, parts, queued, k)
  }

  lemma {:induction false} IssueOne(
      m: MapType, read: bool, address: nat, sizes: seq<nat>, dram: seq<nat>, nvme: seq<nat>,
      parts: seq<Part>, queued: seq<seq<nat>>, p: Part, q: seq<nat>)
    requires AllIssued(m, read, address, sizes, dram, nvme, parts, queued) && |parts| < |sizes|
    requires IssuedAs(m, read, address, sizes, dram, nvme, p, q, |parts|)
    ensures AllIssued(m, read, address, sizes, dram, nvme, parts + [p], queued + [q])
  {
    forall j: nat | j < |parts + [p]|
      ensures Issued(m, read, address, sizes, dram, nvme, parts + [p], queued + [q], j)
    {
      assert j < |parts| ==> Issued(m, read, address, sizes, dram, nvme, parts, queued, j);
    }
  }

  /** Both maps hold their lists; those in use are k steps behind where the transfer began. */
  ghost predicate MapsReady(m: MapType, literal: bool, dram: Map, nvme: Map,
                            esD: seq<FileExtent>, esN: seq<FileExtent>, cD: Cursor, cN: Cursor, k: nat)
    reads dram, dram.begin, dram.count, dram.nextLBlock, nvme, nvme.begin, nvme.count, nvme.nextLBlock
  {
    && dram != nvme && dram.Valid() && nvme.Valid() && dram.Holds(esD) && nvme.Holds(esN)
    && (UsesDram(m) ==> dram.Position() == Path(esD, cD, k, literal))
    && (UsesNvme(m) ==> nvme.Position() == Path(esN, cN, k, literal))
  }

  /** Where a seek leaves a map: on the block, or where it was if there is no such block. */
  ghost predicate Sought(es: seq<FileExtent>, l: nat, before: Cursor, c: Cursor) {
    if l < |Blocks(es)| then At(es, l, c) else c == before
  }

  /** The first seek of both maps. */
  method SeekMaps(m: MapType, address: nat, dram: Map, nvme: Map,
                  ghost esD: seq<FileExtent>, ghost esN: seq<FileExtent>)
    requires dram != nvme && dram.Valid() && nvme.Valid() && dram.Holds(esD) && nvme.Holds(esN)
    modifies dram, nvme
    ensures dram.Valid() && nvme.Valid() && dram.Holds(esD) && nvme.Holds(esN)
    ensures UsesDram(m) ==> Sought(esD, DramBase(m, address), old(dram.Position()), dram.Position())
    ensures UsesNvme(m) ==> Sought(esN, address / BLOCK, old(nvme.Position()), nvme.Position())
  {
    if UsesNvme(m) { var _ := nvme.Seek(address / BLOCK, esN); }
    if UsesDram(m) { var _ := dram.Seek(DramBase(m, address), esD); }
  }

  /** Translate one chunk. */
  method NextTarget(m: MapType, read: bool, current: nat, dram: Map, nvme: Map) returns (target: nat, queued: seq<nat>)
    ensures target == Target(m, read, current, dram.pblock) && queued == Queued(m, current, nvme.pblock)
  {
    target, queued := current, [];
    match m {
      case DRAM => target := dram.pblock * BLOCK + current % BLOCK;
      case NVMe =>
        target := (if read then NVME_DRAM_READ else NVME_DRAM_WRITE) + current % HALF;
        queued := [nvme.pblock * BLOCK + current % BLOCK];
      case DRAMAndNVMe =>
        target := dram.pblock * BLOCK + current % BLOCK;
        queued := [nvme.pblock * BLOCK + current % BLOCK];
      case NoMap =>
    }
  }

  /** Step the maps in use. */
  method StepMaps(m: MapType, literal: bool, dram: Map, nvme: Map,
                  ghost esD: seq<FileExtent>, ghost esN: seq<FileExtent>,
                  ghost cD: Cursor, ghost cN: Cursor, ghost k: nat)
    requires MapsReady(m, literal, dram, nvme, esD, esN, cD, cN, k)
    modifies dram, nvme
    ensures MapsReady(m, literal, dram, nvme, esD, esN, cD, cN, k + 1)
  {
    if UsesDram(m) { dram.Step(literal, esD); }
    if UsesNvme(m) { nvme.Step(literal, esN); }
  }

  /**
   The loop of issue_partial_transfers, with the maps' step as written or as intended. Nothing is asked of
   the maps: past the end of a list they stand where their registers say.
   */
  method IssueParts(m: MapType, read: bool, literal: bool, address: nat, size: nat, dram: Map, nvme: Map,
                    ghost esD: seq<FileExtent>, ghost esN: seq<FileExtent>)
    returns (parts: seq<Part>, queued: seq<seq<nat>>, ghost cD: Cursor, ghost cN: Cursor)
    requires dram != nvme && dram.Valid() && nvme.Valid() && dram.Holds(esD) && nvme.Holds(esN)
    modifies dram, nvme
    ensures var n := |Sizes(address, size)|;
      && |parts| == n
      && AllIssued(m, read, address, Sizes(address, size), Visited(esD, cD, n, literal), Visited(esN, cN, n, literal),
                   parts, queued)
    ensures UsesDram(m) ==> Sought(esD, DramBase(m, address), old(dram.Position()), cD)
    ensures UsesNvme(m) ==> Sought(esN, address / BLOCK, old(nvme.Position()), cN)
  {
    ghost var sizes := Sizes(address, size);
    var transferred := 0;
    parts, queued := [], [];
    SeekMaps(m, address, dram, nvme, esD, esN);
    cD, cN := dram.Position(), nvme.Position();
    while transferred < size
      invariant AllIssued(m, read, address, sizes, Visited(esD, cD, |sizes|, literal),
                          Visited(esN, cN, |sizes|, literal), parts, queued)
      invariant address + transferred == Start(address, sizes, |parts|) <= address + size
      invariant MapsReady(m, literal, dram, nvme, esD, esN, cD, cN, |parts|)
      decreases size - transferred
    {
      parts, queued, transferred :=
        IssueRound(m, read, literal, address, size, transferred, dram, nvme, esD, esN, cD, cN, parts, queued);
    }
    ChunkAt(address, size, |parts|);
  }

  /** What a round adds, given the blocks d and e that the maps stand on. */
  lemma {:induction false} RoundIssued(m: MapType, read: bool, address: nat, size: nat, transferred: nat,
      dram: seq<nat>, nvme: seq<nat>, parts: seq<Part>, queued: seq<seq<nat>>, d: nat, e: nat, round: nat)
    requires AllIssued(m, read, address, Sizes(address, size), dram, nvme, parts, queued)
    requires transferred < size && address + transferred == Start(address, Sizes(address, size), |parts|)
    requires round == Min(size - transferred, Room(address + transferred))
    requires UsesDram(m) && |parts| < |dram| ==> d == dram[|parts|]
    requires UsesNvme(m) && |parts| < |nvme| ==> e == nvme[|parts|]
    ensures var current, sizes := address + transferred, Sizes(address, size);
      var part := Part(Target(m, read, current, d), round, round == size - transferred);
      && AllIssued(m, read, address, sizes, dram, nvme, parts + [part], queued + [Queued(m, current, e)])
      && 0 < round <= size - transferred && current + round == Start(address, sizes, |parts| + 1)
  {
    var current, sizes := address + transferred, Sizes(address, size);
    ChunkAt(address, size, |parts|);
    ChunkAt(address, size, |parts| + 1);
    var part := Part(Target(m, read, current, d), round, round == size - transferred);
    IssueOne(m, read, address, sizes, dram, nvme, parts, queued, part, Queued(m, current, e));
  }

  /** One round: the chunk up to the end of the block or of the transfer. */
  method IssueRound(m: MapType, read: bool, literal: bool, address: nat, size: nat, transferred: nat,
                    dram: Map, nvme: Map,
                    ghost esD: seq<FileExtent>, ghost esN: seq<FileExtent>, ghost cD: Cursor, ghost cN: Cursor,
                    parts: seq<Part>, queued: seq<seq<nat>>)
    returns (parts': seq<Part>, queued': seq<seq<nat>>, transferred': nat)
    requires transferred < size
    requires var sizes := Sizes(address, size); var n := |sizes|;
      && AllIssued(m, read, address, sizes, Visited(esD, cD, n, literal), Visited(esN, cN, n, literal), parts, queued)
      && address + transferred == Start(address, sizes, |parts|)
    requires MapsReady(m, literal, dram, nvme, esD, esN, cD, cN, |parts|)
    modifies dram, nvme
    ensures var sizes := Sizes(address, size); var n := |sizes|;
      && AllIssued(m, read, address, sizes, Visited(esD, cD, n, literal), Visited(esN, cN, n, literal), parts', queued')
      && address + transferred' == Start(address, sizes, |parts'|) && transferred < transferred' <= size
    ensures MapsReady(m, literal, dram, nvme, esD, esN, cD, cN, |parts'|)
  {
    ghost var n := |Sizes(address, size)|;
    var remaining, current := size - transferred, address + transferred;
    var limit := BLOCK - current % BLOCK;
    var round := if remaining <= limit then remaining else limit;
    RoundIssued(m, read, address, size, transferred, Visited(esD, cD, n, literal), Visited(esN, cN, n, literal),
                parts, queued, dram.pblock, nvme.pblock, round);
    var target, q := NextTarget(m, read, current, dram, nvme);
    var part := Part(target, round, round == remaining);
    StepMaps(m, literal, dram, nvme, esD, esN, cD, cN, |parts|);
    parts', queued' := parts + [part], queued + [q];
    transferred' := transferred + round;
  }

  // ---- What the parts reach ---------------------------------------------------------------

  /** The bytes of chunks placed in blocks are those of the blocks, from the offset of the address on. */
  lemma {:induction false} MapsIsTranslation(address: nat, size: nat, blocks: seq<nat>, parts: seq<Part>)
    requires Maps(address, size, blocks, parts)
    ensures |AllBytes(parts)| == size
    ensures ReachesAll(AllBytes(parts), blocks, address % BLOCK)
  {
    PartsTranslateTheRange(address, size, blocks, parts, |parts|);
    ChunksAddUp(address, size);
    assert parts[..|parts|] == parts;
  }

  lemma {:induction false} IssuedMaps(m: MapType, read: bool, address: nat, size: nat,
      dram: seq<nat>, nvme: seq<nat>, parts: seq<Part>, queued: seq<seq<nat>>)
    requires UsesDram(m) && AllIssued(m, read, address, Sizes(address, size), dram, nvme, parts, queued)
    requires |parts| == |Sizes(address, size)|
    ensures Maps(address, size, dram, parts)
  {
    forall k: nat | k < |parts| ensures Placed(address, size, dram, parts, k) {
      assert Issued(m, read, address, Sizes(address, size), dram, nvme, parts, queued, k);
    }
  }

  /** The bytes of the parts are those of the blocks the DRAM map visits. */
  lemma {:induction false} IssuedIsTranslation(m: MapType, read: bool, address: nat, size: nat,
      dram: seq<nat>, nvme: seq<nat>, parts: seq<Part>, queued: seq<seq<nat>>)
    requires UsesDram(m) && AllIssued(m, read, address, Sizes(address, size), dram, nvme, parts, queued)
    requires |parts| == |Sizes(address, size)|
    ensures |AllBytes(parts)| == size
    ensures ReachesAll(AllBytes(parts), dram, address % BLOCK)
  {
    IssuedMaps(m, read, address, size, dram, nvme, parts, queued);
    MapsIsTranslation(address, size, dram, parts);
  }

  /** Inside the list the intended step visits the list's own blocks, one after the other. */
  lemma {:induction false} VisitedInsideTheList(es: seq<FileExtent>, l: nat, c: Cursor, n: nat)
    requires NonEmpty(es) && At(es, l, c) && l + n <= |Blocks(es)|
    ensures Visited(es, c, n, false) == Blocks(es)[l..l + n]
  {
    forall k | 0 <= k < n ensures Visited(es, c, n, false)[k] == Blocks(es)[l + k] {
      WalkIsSeek(es, l, c, k);
      AtIsBlock(es, l + k, Walk(es, c, k));
    }
  }

  /** A slice of a list translates as the list does, further on. */
  lemma {:induction false} ReachesSlice(bytes: seq<nat>, i: nat, blocks: seq<nat>, l: nat, n: nat, address: nat)
    requires l == address / BLOCK && l + n <= |blocks| && (address % BLOCK + i) / BLOCK < n
    ensures Reaches(bytes, i, blocks[l..l + n], address % BLOCK) <==> Reaches(bytes, i, blocks, address)
  {
    assert address + i == l * BLOCK + (address % BLOCK + i);
  }

  /**
   Through a DRAM map that covers the transfer, with the step as written or as intended: the
   parts reach, byte by byte, exactly the bytes the transfer names if and only if the intended
   step is taken or the transfer stays inside the extent where it begins.
   */
  lemma {:induction false} PartsAreTheRangeIff(read: bool, literal: bool, address: nat, size: nat, es: seq<FileExtent>,
      c: Cursor, nvme: seq<nat>, parts: seq<Part>, queued: seq<seq<nat>>)
    requires var sizes := Sizes(address, size);
      AllIssued(DRAM, read, address, sizes, Visited(es, c, |sizes|, literal), nvme, parts, queued) && |parts| == |sizes|
    requires NonEmpty(es) && Spread(es) && At(es, address / BLOCK, c) && address + size <= |Blocks(es)| * BLOCK
    ensures |AllBytes(parts)| == size
    ensures ReachesAll(AllBytes(parts), Blocks(es), address) <==>
            !literal || size == 0 || address + size <= First(es, c.extent + 1) * BLOCK
  {
    IssuedMaps(DRAM, read, address, size, Visited(es, c, |Sizes(address, size)|, literal), nvme, parts, queued);
    MapsTheRangeIff(literal, address, size, es, c, parts);
  }

  /** The same of any ranges that are placed through a map. */
  lemma {:induction false} MapsTheRangeIff(
      literal: bool, address: nat, size: nat, es: seq<FileExtent>, c: Cursor, parts: seq<Part>)
    requires Maps(address, size, Visited(es, c, |Sizes(address, size)|, literal), parts)
    requires NonEmpty(es) && Spread(es) && At(es, address / BLOCK, c) && address + size <= |Blocks(es)| * BLOCK
    ensures |AllBytes(parts)| == size
    ensures ReachesAll(AllBytes(parts), Blocks(es), address) <==>
            !literal || size == 0 || address + size <= First(es, c.extent + 1) * BLOCK
  {
    var l, n := address / BLOCK, |Sizes(address, size)|;
    var visited := Visited(es, c, n, literal);
    MapsIsTranslation(address, size, visited, parts);
    if size == 0 {
    } else {
      EndsInBlock(address, size, l, |Blocks(es)|);
      EndsInBlock(address, size, l, First(es, c.extent + 1));
      BytesAreTheRangeIff(address, size, AllBytes(parts), visited, Blocks(es));
      VisitedIsTheRangeIff(es, l, c, n, literal);
    }
  }

  /** A transfer that starts in block l ends with block m or before exactly if its chunks do. */
  lemma {:induction false} EndsInBlock(address: nat, size: nat, l: nat, m: nat)
    requires size > 0 && l == address / BLOCK
    ensures l + |Sizes(address, size)| <= m <==> address + size <= m * BLOCK
  {
    CountChunks(address, size);
  }

  lemma {:induction false} BytesAreTheRangeIff(
      address: nat, size: nat, bytes: seq<nat>, dram: seq<nat>, blocks: seq<nat>)
    requires |bytes| == size > 0 && |dram| == |Sizes(address, size)| && ReachesAll(bytes, dram, address % BLOCK)
    requires address / BLOCK + |dram| <= |blocks|
    ensures ReachesAll(bytes, blocks, address) <==> dram == blocks[address / BLOCK..address / BLOCK + |dram|]
  {
    var l, n := address / BLOCK, |dram|;
    CountChunks(address, size);
    var want := blocks[l..l + n];
    SameBytesIffSameBlocks(address, size, bytes, dram, want);
    forall i: nat | i < size
      ensures Reaches(bytes, i, want, address % BLOCK) <==> Reaches(bytes, i, blocks, address)
    {
      ReachesSlice(bytes, i, blocks, l, n, address);
    }
  }

  lemma {:induction false} VisitedIsTheRangeIff(es: seq<FileExtent>, l: nat, c: Cursor, n: nat, literal: bool)
    requires NonEmpty(es) && Spread(es) && At(es, l, c) && l + n <= |Blocks(es)|
    ensures Visited(es, c, n, literal) == Blocks(es)[l..l + n] <==> !literal || l + n <= First(es, c.extent + 1)
  {
    var dram, want := Visited(es, c, n, literal), Blocks(es)[l..l + n];
    if literal {
      LiteralChunksIff(es, l, c, n);
      if dram == want {
        forall k | 0 <= k < n ensures WalkLiteral(es, c, k).pblock == Blocks(es)[l + k] {
          assert dram[k] == want[k];
        }
      }
      if l + n <= First(es, c.extent + 1) {
        forall k | 0 <= k < n ensures dram[k] == want[k] {
          assert WalkLiteral(es, c, k).pblock == Blocks(es)[l + k];
        }
        assert dram == want;
      }
    } else {
      VisitedInsideTheList(es, l, c, n);
    }
  }

  // ---- The literal step -------------------------------------------------------------------

  /**
   On a file's list, where no extent starts at the end of the one before, every one of n
   chunks gets its block from the literal step exactly when all n lie in one extent.
   */
  lemma {:induction false} LiteralChunksIff(es: seq<FileExtent>, l: nat, c: Cursor, n: nat)
    requires NonEmpty(es) && Spread(es) && At(es, l, c) && l + n <= |Blocks(es)|
    ensures (forall k :: 0 <= k < n ==> WalkLiteral(es, c, k).pblock == Blocks(es)[l + k])
            <==> l + n <= First(es, c.extent + 1)
  {
    FirstStep(es, c.extent);
    if l + n <= First(es, c.extent + 1) {
      forall k | 0 <= k < n ensures WalkLiteral(es, c, k).pblock == Blocks(es)[l + k] {
        LiteralWalkIff(es, l, c, k);
        AtIsBlock(es, l + k, WalkLiteral(es, c, k));
      }
    } else {
      var i := c.extent;
      var k := First(es, i + 1) - l;
      assert es[..|es|] == es;
      LiteralOvershoot(es, l, c, k);
      BlockInExtent(es, i + 1, 0);
      assert Gap(es, i);
      assert WalkLiteral(es, c, k).pblock != Blocks(es)[l + k];
    }
  }

  lemma {:induction false} LiteralOvershoot(es: seq<FileExtent>, l: nat, c: Cursor, k: nat)
    requires NonEmpty(es) && At(es, l, c) && l + k <= First(es, c.extent + 1)
    ensures WalkLiteral(es, c, k) == Cursor(c.extent, c.pblock + k)
  {
    FirstStep(es, c.extent);
    if k == 0 {
    } else {
      LiteralOvershoot(es, l, c, k - 1);
    }
  }

  // ---- Preloading before a write ----------------------------------------------------------

  /** Block b is touched by [start, end) but not covered by it. */
  predicate Partial(start: nat, end: nat, b: nat) {
    b * BLOCK < end && start < b * BLOCK + BLOCK && !(start <= b * BLOCK && b * BLOCK + BLOCK <= end)
  }

  /** preload_nvme_blocks: the logical blocks read into DRAM before the write. */
  method Preload(start: nat, size: nat) returns (blocks: seq<nat>)
    ensures size > 0 ==> forall b :: b in blocks <==> b >= 0 && Partial(start, start + size, b)
    ensures size > 0 ==> forall i, j :: 0 <= i < j < |blocks| ==> blocks[i] != blocks[j]
  {
    var end := start + size;
    var lastByte := start + (if size > 0 then size else 1) - 1;
    var startOdd, endOdd := start % BLOCK != 0, end % BLOCK != 0;
    var differ := start / BLOCK != lastByte / BLOCK;
    blocks := [];
    if startOdd { blocks := blocks + [start / BLOCK]; }
    if endOdd && (differ || !startOdd) { blocks := blocks + [end / BLOCK]; }
  }
}
