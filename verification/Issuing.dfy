/**
 Issuing a transfer, for every map type: which physical bytes its parts reach and which NVMe
 ranges are queued with them, said about the files' blocks and the transfer alone.
 */
module Issuing {
  import opened FileExtents
  import opened ExtentMap
  import opened Transfers
  import opened PageFile

  // ---- What is promised -------------------------------------------------------------------

  /** The range lies in extent e of the list. */
  ghost predicate Within(es: seq<FileExtent>, e: nat, address: nat, size: nat) {
    e < |es| && First(es, e) * BLOCK <= address && address + size <= First(es, e + 1) * BLOCK
  }

  ghost predicate InOneExtent(es: seq<FileExtent>, address: nat, size: nat) {
    exists e: nat {:trigger Within(es, e, address, size)} :: Within(es, e, address, size)
  }

  /**
   Through a list that covers the transfer, byte i goes where the list has byte address + i:
   always with the intended step, and with the step as written exactly inside one extent.
   */
  ghost predicate ReachedIff(bytes: seq<nat>, es: seq<FileExtent>, literal: bool, address: nat, size: nat) {
    && |bytes| == size
    && (NonEmpty(es) && Spread(es) && address + size <= |Blocks(es)| * BLOCK ==>
          (ReachesAll(bytes, Blocks(es), address) <==> !literal || size == 0 || InOneExtent(es, address, size)))
  }

  /** Through the page file: right exactly up to the limit of the extent where the transfer begins. */
  ghost predicate WindowedIff(bytes: seq<nat>, es: seq<FileExtent>, literal: bool, address: nat, size: nat) {
    IsPageFile(es) ==>
      exists c: Cursor {:trigger At(es, address % PAGEFILE / BLOCK, c)} ::
        && At(es, address % PAGEFILE / BLOCK, c)
        && (AllInWindow(bytes, Blocks(es), address) <==>
              size == 0 || address % PAGEFILE + size <= Limit(es, c.extent, literal) * BLOCK)
  }

  /** An NVMe transfer is staged in the lower 2 GiB when read and in the upper 2 GiB when written. */
  ghost predicate Staged(bytes: seq<nat>, read: bool, address: nat) {
    forall i :: 0 <= i < |bytes| ==> bytes[i] == (if read then 0 else 0x8000_0000) + (address + i) % 0x8000_0000
  }

  /** Where the data of a transfer goes. */
  ghost predicate DataGoes(
      m: MapType, read: bool, literal: bool, address: nat, size: nat, es: seq<FileExtent>, bytes: seq<nat>) {
    && |bytes| == size
    && match m
       case NoMap => bytes == Bytes(address, size)
       case DRAM => ReachedIff(bytes, es, literal, address, size)
       case NVMe => Staged(bytes, read, address)
       case DRAMAndNVMe => WindowedIff(bytes, es, literal, address, size)
  }

  /** The parts at the NVMe addresses queued with them. */
  function Stored(parts: seq<Part>, queue: seq<nat>): (r: seq<Part>)
    requires |queue| == |parts|
    ensures |r| == |parts|
    ensures forall k :: 0 <= k < |r| ==> r[k] == Part(queue[k], parts[k].size, parts[k].last)
  {
    seq(|parts|, k requires 0 <= k < |parts| => Part(queue[k], parts[k].size, parts[k].last))
  }

  /** One address per part if an NVMe map is used, and together they name the transfer's bytes on the drive. */
  ghost predicate NvmeGoes(
      m: MapType, literal: bool, address: nat, size: nat, es: seq<FileExtent>, parts: seq<Part>, queue: seq<nat>) {
    if m.NVMe? || m.DRAMAndNVMe? then
      |queue| == |parts| && ReachedIff(AllBytes(Stored(parts, queue)), es, literal, address, size)
    else
      queue == []
  }

  /** A part for every block touched, inside one block, and the last one flagged. */
  ghost predicate Chunked(address: nat, size: nat, parts: seq<Part>) {
    && |parts| == (if size == 0 then 0 else (address % BLOCK + size - 1) / BLOCK + 1)
    && forall k :: 0 <= k < |parts| ==>
         parts[k].size > 0 && parts[k].address % BLOCK + parts[k].size <= BLOCK && (parts[k].last <==> k == |parts| - 1)
  }

  // ---- Maps -------------------------------------------------------------------------------

  lemma {:induction false} OneExtentIff(es: seq<FileExtent>, c: Cursor, address: nat, size: nat)
    requires At(es, address / BLOCK, c) && size > 0
    ensures InOneExtent(es, address, size) <==> address + size <= First(es, c.extent + 1) * BLOCK
  {
    FirstStep(es, c.extent);
    if address + size <= First(es, c.extent + 1) * BLOCK { assert Within(es, c.extent, address, size); }
    if InOneExtent(es, address, size) {
      var e: nat :| Within(es, e, address, size);
      FirstStep(es, e);
      AtIsUnique(es, address / BLOCK, c, Cursor(e, es[e].offset + (address / BLOCK - First(es, e))));
    }
  }

  /** Ranges placed through a map that was sought first. */
  lemma {:induction false} SoughtIsReached(
      literal: bool, address: nat, size: nat, es: seq<FileExtent>, before: Cursor, c: Cursor, parts: seq<Part>)
    requires Maps(address, size, Visited(es, c, |Sizes(address, size)|, literal), parts)
    requires Sought(es, address / BLOCK, before, c)
    ensures ReachedIff(AllBytes(parts), es, literal, address, size)
  {
    MapsIsTranslation(address, size, Visited(es, c, |Sizes(address, size)|, literal), parts);
    if size > 0 && NonEmpty(es) && Spread(es) && address + size <= |Blocks(es)| * BLOCK {
      MapsTheRangeIff(literal, address, size, es, c, parts);
      OneExtentIff(es, c, address, size);
    }
  }

  lemma {:induction false} QueueMaps(m: MapType, read: bool, address: nat, size: nat,
      dram: seq<nat>, nvme: seq<nat>, parts: seq<Part>, queued: seq<seq<nat>>, queue: seq<nat>)
    requires UsesNvme(m) && AllIssued(m, read, address, Sizes(address, size), dram, nvme, parts, queued)
    requires |parts| == |Sizes(address, size)| == |queue|
    requires forall k :: 0 <= k < |queue| ==> queued[k] == [queue[k]]
    ensures Maps(address, size, nvme, Stored(parts, queue))
  {
    forall k: nat | k < |parts| ensures Placed(address, size, nvme, Stored(parts, queue), k) {
      assert Issued(m, read, address, Sizes(address, size), dram, nvme, parts, queued, k);
    }
  }

  // ---- No DRAM map ------------------------------------------------------------------------

  /** The blocks of a transfer that no DRAM map translates: where it is, or in its half of the staging area. */
  function Direct(m: MapType, read: bool, address: nat, n: nat): seq<nat> {
    seq(n, k => if m.NoMap? then address / BLOCK + k else (if read then 0 else 8192) + (address / BLOCK + k) % 8192)
  }

  lemma {:induction false} BlockAndOffset(block: nat, offset: nat)
    requires offset < BLOCK
    ensures (block * BLOCK + offset) / BLOCK == block && (block * BLOCK + offset) % BLOCK == offset
  {
  }

  lemma {:induction false} DirectMaps(m: MapType, read: bool, address: nat, size: nat,
      dram: seq<nat>, nvme: seq<nat>, parts: seq<Part>, queued: seq<seq<nat>>)
    requires !UsesDram(m) && AllIssued(m, read, address, Sizes(address, size), dram, nvme, parts, queued)
    requires |parts| == |Sizes(address, size)|
    ensures Maps(address, size, Direct(m, read, address, |parts|), parts)
  {
    forall k: nat | k < |parts| ensures Placed(address, size, Direct(m, read, address, |parts|), parts, k) {
      assert Issued(m, read, address, Sizes(address, size), dram, nvme, parts, queued, k);
      ChunksInBlocks(address, size, k);
      HalfInBlocks(Start(address, Sizes(address, size), k));
    }
  }

  lemma {:induction false} HalfInBlocks(x: nat)
    ensures x % 0x8000_0000 == x / BLOCK % 8192 * BLOCK + x % BLOCK
  {
  }

  /** Where byte i of such a transfer goes. */
  function DirectByte(m: MapType, read: bool, address: nat, i: nat): nat {
    if m.NoMap? then address + i else (if read then 0 else 0x8000_0000) + (address + i) % 0x8000_0000
  }

  lemma {:induction false} DirectTranslates(m: MapType, read: bool, address: nat, n: nat, i: nat)
    requires (address % BLOCK + i) / BLOCK < n
    ensures Translate(Direct(m, read, address, n), address % BLOCK + i) == DirectByte(m, read, address, i)
  {
    var x := address % BLOCK + i;
    var block, offset := address / BLOCK + x / BLOCK, x % BLOCK;
    BlockAndOffset(block, offset);
    assert address + i == block * BLOCK + offset;
    HalfInBlocks(address + i);
  }

  lemma {:induction false} DirectGoes(m: MapType, read: bool, address: nat, size: nat, parts: seq<Part>)
    requires !UsesDram(m) && Maps(address, size, Direct(m, read, address, |parts|), parts)
    ensures |AllBytes(parts)| == size
    ensures if m.NoMap? then AllBytes(parts) == Bytes(address, size) else Staged(AllBytes(parts), read, address)
  {
    var bytes, blocks := AllBytes(parts), Direct(m, read, address, |parts|);
    MapsIsTranslation(address, size, blocks, parts);
    forall i: nat | i < size ensures bytes[i] == DirectByte(m, read, address, i) {
      assert Reaches(bytes, i, blocks, address % BLOCK);
      DirectTranslates(m, read, address, |parts|, i);
    }
  }

  // ---- The operation ----------------------------------------------------------------------

  /** The parts are the chunks, whatever the map type. */
  lemma {:induction false} PartsAreChunks(m: MapType, read: bool, address: nat, size: nat,
      dram: seq<nat>, nvme: seq<nat>, parts: seq<Part>, queued: seq<seq<nat>>)
    requires AllIssued(m, read, address, Sizes(address, size), dram, nvme, parts, queued)
    requires |parts| == |Sizes(address, size)|
    ensures Chunked(address, size, parts)
  {
    if size > 0 { CountChunks(address, size); }
    forall k | 0 <= k < |parts|
      ensures parts[k].size > 0 && parts[k].address % BLOCK + parts[k].size <= BLOCK
      ensures parts[k].last <==> k == |parts| - 1
    {
      assert Issued(m, read, address, Sizes(address, size), dram, nvme, parts, queued, k);
      ChunksInBlocks(address, size, k);
      TargetInBlock(m, read, Start(address, Sizes(address, size), k), dram[k]);
    }
  }

  lemma {:induction false} TargetInBlock(m: MapType, read: bool, current: nat, dramBlock: nat)
    ensures Target(m, read, current, dramBlock) % BLOCK == current % BLOCK
  {
    HalfInBlocks(current);
    var first, half := if read then 0 else 8192, current / BLOCK % 8192;
    BlockAndOffset(if m.NVMe? then first + half else if m.NoMap? then current / BLOCK else dramBlock, current % BLOCK);
  }

  /** Everything in the queue of NVMe addresses. */
  function Flattened(queued: seq<seq<nat>>): seq<nat> {
    if queued == [] then [] else Flattened(queued[..|queued| - 1]) + queued[|queued| - 1]
  }

  /** The queue holds the address of every part that goes through an NVMe map, and nothing else. */
  lemma {:induction false} OneAddressPerPart(m: MapType, read: bool, address: nat, size: nat,
      dram: seq<nat>, nvme: seq<nat>, parts: seq<Part>, queued: seq<seq<nat>>, j: nat)
    requires AllIssued(m, read, address, Sizes(address, size), dram, nvme, parts, queued) && j <= |queued|
    ensures |Flattened(queued[..j])| == if UsesNvme(m) then j else 0
    ensures UsesNvme(m) ==> forall k :: 0 <= k < j ==> queued[k] == [Flattened(queued[..j])[k]]
  {
    if j == 0 {
    } else {
      OneAddressPerPart(m, read, address, size, dram, nvme, parts, queued, j - 1);
      assert queued[..j][..j - 1] == queued[..j - 1];
      assert Issued(m, read, address, Sizes(address, size), dram, nvme, parts, queued, j - 1);
    }
  }

  /** What the loop issued, said about bytes. */
  lemma {:induction false} IssuedGoes(m: MapType, read: bool, literal: bool, address: nat, size: nat,
      esD: seq<FileExtent>, before: Cursor, c: Cursor, nvme: seq<nat>, parts: seq<Part>, queued: seq<seq<nat>>)
    requires var n := |Sizes(address, size)|;
      && AllIssued(m, read, address, Sizes(address, size), Visited(esD, c, n, literal), nvme, parts, queued)
      && |parts| == n
    requires UsesDram(m) ==> Sought(esD, DramBase(m, address), before, c)
    ensures DataGoes(m, read, literal, address, size, esD, AllBytes(parts))
  {
    var dram := Visited(esD, c, |parts|, literal);
    if !UsesDram(m) {
      DirectMaps(m, read, address, size, dram, nvme, parts, queued);
      DirectGoes(m, read, address, size, parts);
    } else if m.DRAM? {
      IssuedMaps(m, read, address, size, dram, nvme, parts, queued);
      SoughtIsReached(literal, address, size, esD, before, c, parts);
    } else {
      IssuedIsTranslation(m, read, address, size, dram, nvme, parts, queued);
      if IsPageFile(esD) { PageFileWindowIff(read, literal, address, size, esD, c, nvme, parts, queued); }
    }
  }

  lemma {:induction false} QueuedGoes(m: MapType, read: bool, literal: bool, address: nat, size: nat,
      esN: seq<FileExtent>, before: Cursor, c: Cursor, dram: seq<nat>, parts: seq<Part>, queued: seq<seq<nat>>)
    requires var n := |Sizes(address, size)|;
      && AllIssued(m, read, address, Sizes(address, size), dram, Visited(esN, c, n, literal), parts, queued)
      && |parts| == n
    requires UsesNvme(m) ==> Sought(esN, address / BLOCK, before, c)
    ensures NvmeGoes(m, literal, address, size, esN, parts, Flattened(queued))
  {
    var nvme, queue := Visited(esN, c, |parts|, literal), Flattened(queued);
    OneAddressPerPart(m, read, address, size, dram, nvme, parts, queued, |queued|);
    assert queued[..|queued|] == queued;
    if UsesNvme(m) {
      QueueMaps(m, read, address, size, dram, nvme, parts, queued, queue);
      SoughtIsReached(literal, address, size, esN, before, c, Stored(parts, queue));
    }
  }

  /**
   issue_partial_transfers, with the maps' step as written or as intended. Nothing is asked of
   the maps: past the end of a list they stand where their registers say.
   */
  method IssuePartialTransfers(m: MapType, read: bool, literal: bool, address: nat, size: nat, dram: Map, nvme: Map,
                               ghost esD: seq<FileExtent>, ghost esN: seq<FileExtent>)
    returns (parts: seq<Part>, queue: seq<nat>)
    requires dram != nvme && dram.Valid() && nvme.Valid() && dram.Holds(esD) && nvme.Holds(esN)
    modifies dram, nvme
    ensures |parts| == |Sizes(address, size)| && Chunked(address, size, parts)
    ensures DataGoes(m, read, literal, address, size, esD, AllBytes(parts))
    ensures NvmeGoes(m, literal, address, size, esN, parts, queue)
  {
    var queued;
    ghost var cD, cN;
    ghost var bD, bN, n := dram.Position(), nvme.Position(), |Sizes(address, size)|;
    parts, queued, cD, cN := IssueParts(m, read, literal, address, size, dram, nvme, esD, esN);
    queue := Flattened(queued);
    ghost var d, e := Visited(esD, cD, n, literal), Visited(esN, cN, n, literal);
    PartsAreChunks(m, read, address, size, d, e, parts, queued);
    IssuedGoes(m, read, literal, address, size, esD, bD, cD, e, parts, queued);
    QueuedGoes(m, read, literal, address, size, esN, bN, cN, d, parts, queued);
  }
}
