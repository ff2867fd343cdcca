/**
 Transfers through the page file: a file of 128 blocks in DRAM that serves as a window on an
 NVMe file. The first index into it wraps, the steps after it do not. When exactly every byte
 still reaches the page-file byte its address wraps to.
 */
module PageFile {
  import opened Basics
  import opened FileExtents
  import opened ExtentMap
  import opened Transfers

  /** The page file as the host makes it: PagefileSize bytes in distinct blocks. */
  ghost predicate IsPageFile(es: seq<FileExtent>) {
    && NonEmpty(es)
    && Spread(es)
    && |Blocks(es)| == PAGEFILE_BLOCKS
    && AllDistinct(Blocks(es))
  }

  ghost predicate AllDistinct(blocks: seq<nat>) {
    forall k: nat, l: nat {:trigger Other(blocks, k, l)} ::
      k < l < |blocks| ==> Other(blocks, k, l)
  }

  predicate Other(blocks: seq<nat>, k: nat, l: nat) {
    k < l < |blocks| && blocks[k] != blocks[l]
  }

  // ---- Behind the last block --------------------------------------------------------------

  /** The intended step leaves the list for registers that hold zeros. */
  lemma {:induction false} WalkPastTheEnd(es: seq<FileExtent>, l: nat, c: Cursor)
    requires IsPageFile(es) && l < PAGEFILE_BLOCKS && At(es, l, c)
    ensures var k := PAGEFILE_BLOCKS - l;
      Walk(es, c, k).pblock == 0 && Walk(es, c, k + 1).pblock == 0
  {
    var k := PAGEFILE_BLOCKS - l;
    FewExtents(es);
    WalkIsSeek(es, l, c, k - 1);
    var d := Walk(es, c, k - 1);
    FirstStep(es, d.extent);
    FirstBelowTotal(es, d.extent + 1);
    LastExtent(es, d.extent);
    assert Walk(es, c, k) == NextBlock(es, d) == Cursor(|es|, 0);
    assert Walk(es, c, k + 1) == NextBlock(es, Cursor(|es|, 0));
  }

  /** An extent that ends with the list is the last one. */
  lemma {:induction false} LastExtent(es: seq<FileExtent>, i: nat)
    requires NonEmpty(es) && i < |es| && First(es, i + 1) == |Blocks(es)|
    ensures i == |es| - 1
  {
    if i + 1 < |es| {
      FirstStep(es, i + 1);
      FirstGrows(es, i + 2, |es|);
    }
  }

  /** The step as written first takes the block behind the last extent. */
  lemma {:induction false} LiteralPastTheEnd(es: seq<FileExtent>, l: nat, c: Cursor)
    requires IsPageFile(es) && l < PAGEFILE_BLOCKS && At(es, l, c) && c.extent == |es| - 1
    ensures var k := PAGEFILE_BLOCKS - l;
      && WalkLiteral(es, c, k).pblock == es[|es| - 1].offset + es[|es| - 1].length
      && WalkLiteral(es, c, k + 1).pblock == 0 && WalkLiteral(es, c, k + 2).pblock == 0
  {
    var k := PAGEFILE_BLOCKS - l;
    FewExtents(es);
    FirstStep(es, c.extent);
    assert es[..|es|] == es;
    LiteralOvershoot(es, l, c, k);
    assert WalkLiteral(es, c, k + 1) == NextLiteral(es, WalkLiteral(es, c, k)) == Cursor(|es|, 0);
    assert WalkLiteral(es, c, k + 2) == NextLiteral(es, Cursor(|es|, 0));
  }

  // ---- Which blocks are right -------------------------------------------------------------

  /** The blocks n chunks from page-file block l on should visit. */
  function Wrapped(blocks: seq<nat>, l: nat, n: nat): (r: seq<nat>)
    requires |blocks| == PAGEFILE_BLOCKS
    ensures |r| == n && forall k :: 0 <= k < n ==> r[k] == blocks[(l + k) % PAGEFILE_BLOCKS]
  {
    seq(n, k requires 0 <= k < n => blocks[(l + k) % PAGEFILE_BLOCKS])
  }

  /**
   How many blocks, counted from the start of the page file, come out right. With the intended
   step that is the page file, and its first block once more if that is block 0, which the
   registers behind the list name by accident. With the step as written it is the extent where
   the transfer begins; only behind the last one a coincidence of blocks can add one or two.
   */
  ghost function Limit(es: seq<FileExtent>, extent: nat, literal: bool): nat
    requires IsPageFile(es) && extent < |es|
  {
    var bs := Blocks(es);
    if !literal then PAGEFILE_BLOCKS + Bit(bs[0] == 0)
    else if extent + 1 < |es| then First(es, extent + 1)
    else if es[extent].offset + es[extent].length != bs[0] then PAGEFILE_BLOCKS
    else PAGEFILE_BLOCKS + 1 + Bit(bs[1] == 0)
  }

  /** Chunks up to the limit visit the right blocks. */
  lemma {:induction false} RightBelowLimit(es: seq<FileExtent>, l: nat, c: Cursor, k: nat)
    requires IsPageFile(es) && l < PAGEFILE_BLOCKS && At(es, l, c) && l + k < Limit(es, c.extent, false)
    ensures Walk(es, c, k).pblock == Blocks(es)[(l + k) % PAGEFILE_BLOCKS]
  {
    if l + k < PAGEFILE_BLOCKS {
      WalkIsSeek(es, l, c, k);
      AtIsBlock(es, l + k, Walk(es, c, k));
    } else {
      WalkPastTheEnd(es, l, c);
    }
  }

  lemma {:induction false} LiteralRightBelowLimit(es: seq<FileExtent>, l: nat, c: Cursor, k: nat)
    requires IsPageFile(es) && l < PAGEFILE_BLOCKS && At(es, l, c) && l + k < Limit(es, c.extent, true)
    ensures WalkLiteral(es, c, k).pblock == Blocks(es)[(l + k) % PAGEFILE_BLOCKS]
  {
    WholeList(es);
    if l + k < First(es, c.extent + 1) {
      InsideExtent(es, l, c, k);
      assert (l + k) % PAGEFILE_BLOCKS == l + k;
    } else {
      assert c.extent == |es| - 1;
      LiteralPastTheEnd(es, l, c);
    }
  }

  lemma {:induction false} WholeList(es: seq<FileExtent>)
    ensures First(es, |es|) == |Blocks(es)|
  {
    assert es[..|es|] == es;
  }

  lemma {:induction false} InsideExtent(es: seq<FileExtent>, l: nat, c: Cursor, k: nat)
    requires NonEmpty(es) && At(es, l, c) && l + k < First(es, c.extent + 1)
    ensures l + k < |Blocks(es)|
    ensures WalkLiteral(es, c, k).pblock == Blocks(es)[l + k]
  {
    FirstBelowTotal(es, c.extent + 1);
    LiteralWalkIff(es, l, c, k);
    AtIsBlock(es, l + k, WalkLiteral(es, c, k));
  }

  /** The chunk at the limit visits a wrong one. */
  lemma {:induction false} WrongAtLimit(es: seq<FileExtent>, l: nat, c: Cursor)
    requires IsPageFile(es) && l < PAGEFILE_BLOCKS && At(es, l, c)
    ensures var k := Limit(es, c.extent, false) - l;
      k >= 0 && Walk(es, c, k).pblock != Blocks(es)[(l + k) % PAGEFILE_BLOCKS]
  {
    WalkPastTheEnd(es, l, c);
    assert Other(Blocks(es), 0, 1);
  }

  lemma {:induction false} LiteralWrongAtLimit(es: seq<FileExtent>, l: nat, c: Cursor)
    requires IsPageFile(es) && l < PAGEFILE_BLOCKS && At(es, l, c)
    ensures var k := Limit(es, c.extent, true) - l;
      k >= 0 && WalkLiteral(es, c, k).pblock != Blocks(es)[(l + k) % PAGEFILE_BLOCKS]
  {
    if c.extent + 1 < |es| {
      // at the end of an extent the step names the block behind it, not the next extent's first
      FirstStep(es, c.extent);
      LiteralOvershoot(es, l, c, First(es, c.extent + 1) - l);
      BlockInExtent(es, c.extent + 1, 0);
      assert Gap(es, c.extent);
    } else {
      WrongBehindTheEnd(es, l, c);
    }
  }

  lemma {:induction false} WrongBehindTheEnd(es: seq<FileExtent>, l: nat, c: Cursor)
    requires IsPageFile(es) && l < PAGEFILE_BLOCKS && At(es, l, c) && c.extent == |es| - 1
    ensures var x := Limit(es, c.extent, true);
      x >= PAGEFILE_BLOCKS && WalkLiteral(es, c, x - l).pblock != Blocks(es)[x % PAGEFILE_BLOCKS]
  {
    LiteralPastTheEnd(es, l, c);
    assert Other(Blocks(es), 1, 2);
    var x := Limit(es, c.extent, true);
    assert x % PAGEFILE_BLOCKS == x - PAGEFILE_BLOCKS;
  }

  lemma {:induction false} ChunkRightBelowLimit(es: seq<FileExtent>, l: nat, c: Cursor, k: nat, literal: bool)
    requires IsPageFile(es) && l < PAGEFILE_BLOCKS && At(es, l, c) && l + k < Limit(es, c.extent, literal)
    ensures Path(es, c, k, literal).pblock == Blocks(es)[(l + k) % PAGEFILE_BLOCKS]
  {
    if literal { LiteralRightBelowLimit(es, l, c, k); } else { RightBelowLimit(es, l, c, k); }
  }

  lemma {:induction false} ChunkWrongAtLimit(es: seq<FileExtent>, l: nat, c: Cursor, literal: bool)
    requires IsPageFile(es) && l < PAGEFILE_BLOCKS && At(es, l, c)
    ensures l <= Limit(es, c.extent, literal)
    ensures var k := Limit(es, c.extent, literal) - l;
      Path(es, c, k, literal).pblock != Blocks(es)[(l + k) % PAGEFILE_BLOCKS]
  {
    if literal { LiteralWrongAtLimit(es, l, c); } else { WrongAtLimit(es, l, c); }
  }

  /** Every chunk visits the block it should exactly up to the limit. */
  lemma {:induction false} VisitedIsWrappedIff(es: seq<FileExtent>, l: nat, c: Cursor, n: nat, literal: bool)
    requires IsPageFile(es) && l < PAGEFILE_BLOCKS && At(es, l, c)
    ensures Visited(es, c, n, literal) == Wrapped(Blocks(es), l, n) <==> n == 0 || l + n <= Limit(es, c.extent, literal)
  {
    var got, want, m := Visited(es, c, n, literal), Wrapped(Blocks(es), l, n), Limit(es, c.extent, literal);
    ChunkWrongAtLimit(es, l, c, literal);
    if l + n <= m {
      forall k | 0 <= k < n ensures got[k] == want[k] { ChunkRightBelowLimit(es, l, c, k, literal); }
    } else if n > 0 {
      assert got[m - l] != want[m - l];
    }
  }

  // ---- The issued bytes -------------------------------------------------------------------

  /** Byte i of a transfer reaches the page-file byte that its own address wraps to. */
  ghost predicate InWindow(bytes: seq<nat>, i: nat, blocks: seq<nat>, address: nat) {
    && i < |bytes| && |blocks| == PAGEFILE_BLOCKS
    && bytes[i] == Translate(blocks, (address + i) % PAGEFILE)
  }

  ghost predicate AllInWindow(bytes: seq<nat>, blocks: seq<nat>, address: nat) {
    forall i: nat {:trigger InWindow(bytes, i, blocks, address)} ::
      i < |bytes| ==> InWindow(bytes, i, blocks, address)
  }

  /** Where an address wraps to, block and offset. */
  lemma {:induction false} WrappedAddress(address: nat, i: nat)
    ensures var l, x := address % PAGEFILE / BLOCK, address % BLOCK + i;
      && (address + i) % PAGEFILE / BLOCK == (l + x / BLOCK) % PAGEFILE_BLOCKS
      && (address + i) % PAGEFILE % BLOCK == x % BLOCK
  {
    var p := address % PAGEFILE;
    var y := p + i;
    assert (address + i) % PAGEFILE == y % PAGEFILE;
    assert p % BLOCK == address % BLOCK;
    assert y == (p / BLOCK) * BLOCK + (address % BLOCK + i);
    assert y / BLOCK == p / BLOCK + (address % BLOCK + i) / BLOCK;
    BlockOfWrapped(y);
  }

  lemma {:induction false} BlockOfWrapped(y: nat)
    ensures y % PAGEFILE / BLOCK == y / BLOCK % PAGEFILE_BLOCKS
    ensures y % PAGEFILE % BLOCK == y % BLOCK
  {
  }

  lemma {:induction false} BytesInWindowIff(address: nat, size: nat, bytes: seq<nat>, dram: seq<nat>, blocks: seq<nat>)
    requires |blocks| == PAGEFILE_BLOCKS && |bytes| == size && |dram| == |Sizes(address, size)|
    requires ReachesAll(bytes, dram, address % BLOCK)
    ensures AllInWindow(bytes, blocks, address) <==> dram == Wrapped(blocks, address % PAGEFILE / BLOCK, |dram|)
  {
    var want := Wrapped(blocks, address % PAGEFILE / BLOCK, |dram|);
    SameBytesIffSameBlocks(address, size, bytes, dram, want);
    forall i: nat | i < size
      ensures Reaches(bytes, i, want, address % BLOCK) <==> InWindow(bytes, i, blocks, address)
    {
      assert Reaches(bytes, i, dram, address % BLOCK);
      WrappedAddress(address, i);
    }
  }

  /**
   Every byte issued through the page file, with the step as intended or as written, reaches the
   page-file byte its address wraps to exactly when the transfer ends at the limit or before.
   */
  lemma {:induction false} PageFileWindowIff(read: bool, literal: bool, address: nat, size: nat, es: seq<FileExtent>,
      c: Cursor, nvme: seq<nat>, parts: seq<Part>, queued: seq<seq<nat>>)
    requires var sizes := Sizes(address, size);
      && AllIssued(DRAMAndNVMe, read, address, sizes, Visited(es, c, |sizes|, literal), nvme, parts, queued)
      && |parts| == |sizes|
    requires IsPageFile(es) && At(es, DramBase(DRAMAndNVMe, address), c)
    ensures |AllBytes(parts)| == size
    ensures AllInWindow(AllBytes(parts), Blocks(es), address) <==>
            size == 0 || address % PAGEFILE + size <= Limit(es, c.extent, literal) * BLOCK
  {
    var l, n := address % PAGEFILE / BLOCK, |Sizes(address, size)|;
    var dram := Visited(es, c, n, literal);
    IssuedIsTranslation(DRAMAndNVMe, read, address, size, dram, nvme, parts, queued);
    BytesInWindowIff(address, size, AllBytes(parts), dram, Blocks(es));
    VisitedIsWrappedIff(es, l, c, n, literal);
    if size == 0 {
    } else {
      EndsInWindow(address, size, Limit(es, c.extent, literal));
    }
  }

  /** The same of the issuing loop itself, whatever the NVMe map holds. */
  method IssueThroughPageFile(read: bool, literal: bool, address: nat, size: nat, dram: Map, nvme: Map,
                              ghost es: seq<FileExtent>, ghost esN: seq<FileExtent>)
    returns (parts: seq<Part>, queued: seq<seq<nat>>, ghost c: Cursor)
    requires dram != nvme && dram.Valid() && nvme.Valid() && dram.Holds(es) && nvme.Holds(esN) && IsPageFile(es)
    modifies dram, nvme
    ensures At(es, address % PAGEFILE / BLOCK, c) && |AllBytes(parts)| == size
    ensures AllInWindow(AllBytes(parts), Blocks(es), address) <==>
            size == 0 || address % PAGEFILE + size <= Limit(es, c.extent, literal) * BLOCK
  {
    ghost var cN;
    parts, queued, c, cN := IssueParts(DRAMAndNVMe, read, literal, address, size, dram, nvme, es, esN);
    PageFileWindowIff(read, literal, address, size, es, c, Visited(esN, cN, |Sizes(address, size)|, literal),
                      parts, queued);
  }

  lemma {:induction false} EndsInWindow(address: nat, size: nat, m: nat)
    requires size > 0
    ensures address % PAGEFILE / BLOCK + |Sizes(address, size)| <= m <==> address % PAGEFILE + size <= m * BLOCK
  {
    CountChunks(address, size);
    assert address % PAGEFILE % BLOCK == address % BLOCK by { BlockOfWrapped(address); }
  }

  /** A transfer as large as an agent's buffer never fits, wherever it starts and whatever the page file's blocks. */
  lemma {:induction false} AgentTransferNeverFits(read: bool, literal: bool, address: nat, es: seq<FileExtent>,
      c: Cursor, nvme: seq<nat>, parts: seq<Part>, queued: seq<seq<nat>>)
    requires var sizes := Sizes(address, 0x400_0000);
      && AllIssued(DRAMAndNVMe, read, address, sizes, Visited(es, c, |sizes|, literal), nvme, parts, queued)
      && |parts| == |sizes|
    requires IsPageFile(es) && At(es, DramBase(DRAMAndNVMe, address), c)
    ensures !AllInWindow(AllBytes(parts), Blocks(es), address)
  {
    PageFileWindowIff(read, literal, address, 0x400_0000, es, c, nvme, parts, queued);
    FirstBelowTotal(es, c.extent + 1);
  }

  // ---- Two page files ---------------------------------------------------------------------

  const FIRST_FILE := [FileExtent(0, 128)]

  lemma {:induction false} FirstFileBlocks()
    ensures IsPageFile(FIRST_FILE)
    ensures Blocks(FIRST_FILE) == Run(0, 128)
    ensures At(FIRST_FILE, 127, Cursor(0, 127))
  {
    assert FIRST_FILE[..0] == [] && Blocks(FIRST_FILE) == [] + Run(0, 128);
    assert First(FIRST_FILE, 0) == 0;
    forall k: nat, l: nat | k < l < 128 ensures Other(Blocks(FIRST_FILE), k, l) { }
  }

  /** The chunks of three blocks from the last page-file block on. */
  lemma {:induction false} ThreeChunks()
    ensures Sizes(127 * BLOCK, 3 * BLOCK) == [BLOCK, BLOCK, BLOCK]
  {
    assert Sizes(127 * BLOCK, 3 * BLOCK) == [BLOCK] + Sizes(128 * BLOCK, 2 * BLOCK);
    assert Sizes(128 * BLOCK, 2 * BLOCK) == [BLOCK] + Sizes(129 * BLOCK, BLOCK);
    assert Sizes(129 * BLOCK, BLOCK) == [BLOCK] + Sizes(130 * BLOCK, 0);
  }

  /**
   The page file in blocks 0 to 127, and a transfer of three blocks from its last one on. With
   the intended step the second part is right by accident and the third goes to block 0 instead
   of block 1; with the step as written already the second goes to block 128, behind the file.
   */
  lemma {:induction false} PageFileNotWrapped(
      read: bool, literal: bool, nvme: seq<nat>, parts: seq<Part>, queued: seq<seq<nat>>)
    requires var sizes := Sizes(127 * BLOCK, 3 * BLOCK);
      && AllIssued(DRAMAndNVMe, read, 127 * BLOCK, sizes, Visited(FIRST_FILE, Cursor(0, 127), |sizes|, literal), nvme,
                   parts, queued)
      && |parts| == |sizes|
    ensures |parts| == 3 && parts[0].address == 127 * BLOCK
    ensures !literal ==> parts[1].address == 0 && parts[2].address == 0 != Translate(Blocks(FIRST_FILE), BLOCK)
    ensures literal ==> parts[1].address == 128 * BLOCK != Translate(Blocks(FIRST_FILE), 0)
  {
    FirstFileBlocks();
    ThreeChunks();
    var sizes, c := Sizes(127 * BLOCK, 3 * BLOCK), Cursor(0, 127);
    WalkPastTheEnd(FIRST_FILE, 127, c);
    LiteralPastTheEnd(FIRST_FILE, 127, c);
    assert Path(FIRST_FILE, c, 0, literal) == c;
    assert Start(127 * BLOCK, sizes, 1) == 128 * BLOCK && Start(127 * BLOCK, sizes, 2) == 129 * BLOCK;
    forall k: nat | k < 3
      ensures parts[k].address == Visited(FIRST_FILE, c, 3, literal)[k] * BLOCK + Start(127 * BLOCK, sizes, k) % BLOCK
    {
      assert Issued(DRAMAndNVMe, read, 127 * BLOCK, sizes, Visited(FIRST_FILE, c, 3, literal), nvme, parts, queued, k);
    }
  }
}
