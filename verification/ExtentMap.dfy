/**
 The FPGA's extent map: 512 begin and count registers with running block totals, loaded from
 the words the host lays out, and a cursor that seeks and steps.
 */
module ExtentMap {
  import opened Basics
  import opened FileExtents

  const LINE_WORDS := 8        // one memory line holds four extents of two words
  const PREFIX_WORDS := 8      // words of the job in front of the extents

  // ---- The values behind the registers ----------------------------------------------------

  /** Registers past the end of the list hold zeros. */
  function Begin(es: seq<FileExtent>, i: nat): nat { if i < |es| then es[i].offset else 0 }
  function Count(es: seq<FileExtent>, i: nat): nat { if i < |es| then es[i].length else 0 }

  /** First logical block of extent i, which is the total of the counts before it. */
  function First(es: seq<FileExtent>, i: nat): nat
  {
    if i <= |es| then |Blocks(es[..i])| else |Blocks(es)|
  }

  lemma {:induction false} FirstStep(es: seq<FileExtent>, i: nat)
    ensures First(es, i + 1) == First(es, i) + Count(es, i)
  {
    if i < |es| {
      assert es[..i + 1] == es[..i] + [es[i]];
      BlocksSnoc(es[..i], es[i]);
    } else {
      assert es[..|es|] == es;
    }
  }

  lemma {:induction false} FirstGrows(es: seq<FileExtent>, i: nat, j: nat)
    requires i <= j
    ensures First(es, i) <= First(es, j) <= |Blocks(es)|
    decreases j - i, 0
  {
    if i == j {
    } else {
      FirstGrows(es, i, j - 1);
      FirstStep(es, j - 1);
    }
    FirstBelowTotal(es, j);
  }

  lemma {:induction false} FirstBelowTotal(es: seq<FileExtent>, j: nat)
    ensures First(es, j) <= |Blocks(es)|
  {
    if j < |es| { BlocksSplit(es, j); } else { assert es[..|es|] == es; }
  }

  datatype Cursor = Cursor(extent: nat, pblock: nat)

  /** The cursor stands on logical block l. */
  ghost predicate At(es: seq<FileExtent>, l: nat, c: Cursor) {
    && c.extent < |es|
    && First(es, c.extent) <= l < First(es, c.extent) + es[c.extent].length
    && c.pblock == es[c.extent].offset + (l - First(es, c.extent))
  }

  /** Standing on l means pointing at its physical block, and there is one way to stand on it. */
  lemma {:induction false} AtIsBlock(es: seq<FileExtent>, l: nat, c: Cursor)
    requires At(es, l, c)
    ensures l < |Blocks(es)| && c.pblock == Blocks(es)[l]
  {
    BlockInExtent(es, c.extent, l - First(es, c.extent));
  }

  lemma {:induction false} AtIsUnique(es: seq<FileExtent>, l: nat, c: Cursor, d: Cursor)
    requires At(es, l, c) && At(es, l, d)
    ensures c == d
  {
    FirstStep(es, c.extent);
    FirstStep(es, d.extent);
    if c.extent < d.extent {
      FirstGrows(es, c.extent + 1, d.extent);
    } else if d.extent < c.extent {
      FirstGrows(es, d.extent + 1, c.extent);
    }
  }

  // ---- Stepping ---------------------------------------------------------------------------

  /** The next extent register; the index has nine bits. */
  function Advance(es: seq<FileExtent>, c: Cursor): Cursor {
    var i := (c.extent + 1) % MAX_EXTENTS;
    Cursor(i, Begin(es, i))
  }

  /** The next block: inside the extent while one is left there. */
  function NextBlock(es: seq<FileExtent>, c: Cursor): Cursor {
    if c.pblock + 1 < Begin(es, c.extent) + Count(es, c.extent) then c.(pblock := c.pblock + 1)
    else Advance(es, c)
  }

  /** As written: the comparison lets the cursor step one block past the end of the extent. */
  function NextLiteral(es: seq<FileExtent>, c: Cursor): Cursor {
    if c.pblock < Begin(es, c.extent) + Count(es, c.extent) then c.(pblock := c.pblock + 1)
    else Advance(es, c)
  }

  ghost predicate NonEmpty(es: seq<FileExtent>) {
    |es| <= MAX_EXTENTS && forall i :: 0 <= i < |es| ==> es[i].length > 0
  }

  lemma {:induction false} NextBlockSteps(es: seq<FileExtent>, l: nat, c: Cursor)
    requires NonEmpty(es) && At(es, l, c) && l + 1 < |Blocks(es)|
    ensures At(es, l + 1, NextBlock(es, c))
  {
    FirstStep(es, c.extent);
    assert es[..|es|] == es;
  }

  function Walk(es: seq<FileExtent>, c: Cursor, k: nat): Cursor {
    if k == 0 then c else NextBlock(es, Walk(es, c, k - 1))
  }

  function WalkLiteral(es: seq<FileExtent>, c: Cursor, k: nat): Cursor {
    if k == 0 then c else NextLiteral(es, WalkLiteral(es, c, k - 1))
  }

  /** One step, as written or as intended, and k of them. */
  function Stepped(es: seq<FileExtent>, c: Cursor, literal: bool): Cursor {
    if literal then NextLiteral(es, c) else NextBlock(es, c)
  }

  function Path(es: seq<FileExtent>, c: Cursor, k: nat, literal: bool): Cursor {
    if literal then WalkLiteral(es, c, k) else Walk(es, c, k)
  }

  /** k steps after seeking l are where seeking l + k would be. */
  lemma {:induction false} WalkIsSeek(es: seq<FileExtent>, l: nat, c: Cursor, k: nat)
    requires NonEmpty(es) && At(es, l, c) && l + k < |Blocks(es)|
    ensures At(es, l + k, Walk(es, c, k))
  {
    if k == 0 {
    } else {
      WalkIsSeek(es, l, c, k - 1);
      NextBlockSteps(es, l + k - 1, Walk(es, c, k - 1));
    }
  }

  /** Steps taken since the cursor stood at the start of extent i, boundaries included. */
  ghost function LiteralSteps(es: seq<FileExtent>, i: nat, d: Cursor): int
    requires d.extent < |es|
  {
    First(es, d.extent) + (d.pblock - es[d.extent].offset) + (d.extent - i)
  }

  ghost predicate InRange(es: seq<FileExtent>, d: Cursor) {
    && d.extent < |es|
    && es[d.extent].offset <= d.pblock <= es[d.extent].offset + es[d.extent].length
  }

  lemma {:induction false} LiteralStep(es: seq<FileExtent>, i: nat, d: Cursor)
    requires NonEmpty(es) && InRange(es, d)
    requires d.extent + 1 < |es| || d.pblock < es[d.extent].offset + es[d.extent].length
    ensures var d' := NextLiteral(es, d);
      InRange(es, d') && d'.extent >= d.extent && LiteralSteps(es, i, d') == LiteralSteps(es, i, d) + 1
  {
    FirstStep(es, d.extent);
  }

  /** The literal walk loses one step at every extent boundary it passes. */
  lemma {:induction false} LiteralWalkLags(es: seq<FileExtent>, l: nat, c: Cursor, k: nat)
    requires NonEmpty(es) && At(es, l, c) && l + k < |Blocks(es)|
    ensures var d := WalkLiteral(es, c, k);
      InRange(es, d) && d.extent >= c.extent && LiteralSteps(es, c.extent, d) == l + k
  {
    if k == 0 {
    } else {
      LiteralWalkLags(es, l, c, k - 1);
      var d := WalkLiteral(es, c, k - 1);
      FirstStep(es, d.extent);
      assert es[..|es|] == es;
      LiteralStep(es, c.extent, d);
    }
  }

  /** The literal walk stands where it should exactly as long as it has not left the first extent. */
  lemma {:induction false} LiteralWalkIff(es: seq<FileExtent>, l: nat, c: Cursor, k: nat)
    requires NonEmpty(es) && At(es, l, c) && l + k < |Blocks(es)|
    ensures At(es, l + k, WalkLiteral(es, c, k)) <==> l + k < First(es, c.extent + 1)
  {
    LiteralWalkLags(es, l, c, k);
    var d := WalkLiteral(es, c, k);
    FirstStep(es, c.extent);
    FirstGrows(es, c.extent, d.extent);
    if d.extent > c.extent { FirstGrows(es, c.extent + 1, d.extent); }
  }

  /** Two one-block extents at 5 and 9: the second literal block is 6, not 9. */
  lemma {:induction false} LiteralStepPastTheEnd()
    ensures var es := [FileExtent(5, 1), FileExtent(9, 1)];
      && At(es, 0, Cursor(0, 5)) && Blocks(es) == [5, 9]
      && WalkLiteral(es, Cursor(0, 5), 1) == Cursor(0, 6)
      && Walk(es, Cursor(0, 5), 1) == Cursor(1, 9)
  {
    var es := [FileExtent(5, 1), FileExtent(9, 1)];
    assert es[..0] == [] && es[..1] == [FileExtent(5, 1)] && [FileExtent(5, 1)][..0] == [];
    assert Blocks(es[..1]) == Blocks([]) + Run(5, 1);
    assert Blocks(es) == Blocks(es[..1]) + Run(9, 1);
    assert WalkLiteral(es, Cursor(0, 5), 0) == Cursor(0, 5) && Walk(es, Cursor(0, 5), 0) == Cursor(0, 5);
  }

  // ---- The host's encoding ----------------------------------------------------------------

  /** mapExtents: the slot, seven unused words, then two words per extent register. */
  method MapExtents(slot: nat, es: seq<FileExtent>) returns (job: array<nat>)
    ensures fresh(job) && job.Length == PREFIX_WORDS + 2 * MAX_EXTENTS && job[0] == slot
    ensures forall i :: 0 <= i < MAX_EXTENTS ==>
      job[PREFIX_WORDS + 2 * i] == Begin(es, i) && job[PREFIX_WORDS + 2 * i + 1] == Count(es, i)
  {
    job := new nat[PREFIX_WORDS + 2 * MAX_EXTENTS];
    job[0] := slot;
    for i := 0 to MAX_EXTENTS
      invariant job[0] == slot
      invariant forall k :: 0 <= k < i ==>
        job[PREFIX_WORDS + 2 * k] == Begin(es, k) && job[PREFIX_WORDS + 2 * k + 1] == Count(es, k)
    {
      if i < |es| {
        job[PREFIX_WORDS + 2 * i] := es[i].offset;
        job[PREFIX_WORDS + 2 * i + 1] := es[i].length;
      } else {
        job[PREFIX_WORDS + 2 * i] := 0;
        job[PREFIX_WORDS + 2 * i + 1] := 0;
      }
    }
  }

  /** The words of the current line that are still to come, at the front of its shift register. */
  ghost predicate Buffered(words: seq<nat>, i: nat, line: seq<nat>, address: nat) {
    && |words| == PREFIX_WORDS + 2 * MAX_EXTENTS && i <= MAX_EXTENTS
    && address == PREFIX_WORDS + LINE_WORDS * ((i + 3) / 4)
    && (i % 4 != 0 ==> |line| == LINE_WORDS)
    && (i % 4 != 0 ==> forall w :: 0 <= w < LINE_WORDS - 2 * (i % 4) ==> line[w] == words[PREFIX_WORDS + 2 * i + w])
  }

  /** Extent i from the memory lines: a new line every fourth extent, shifted by two words each time. */
  method Fetch(job: array<nat>, i: nat, line: seq<nat>, address: nat)
    returns (b: nat, c: nat, line': seq<nat>, address': nat)
    requires i < MAX_EXTENTS && Buffered(job[..], i, line, address)
    ensures b == job[PREFIX_WORDS + 2 * i] && c == job[PREFIX_WORDS + 2 * i + 1]
    ensures Buffered(job[..], i + 1, line', address')
  {
    line', address' := line, address;
    if i % 4 == 0 {
      line', address' := job[address..address + LINE_WORDS], address + LINE_WORDS;
    }
    b, c := line'[0], line'[1];
    line' := line'[2..] + [0, 0];
  }

  // ---- The map ----------------------------------------------------------------------------

  class Map {
    var extent: nat
    var pblock: nat
    const begin: array<nat>
    const count: array<nat>
    const nextLBlock: array<nat>

    ghost predicate Valid() reads this {
      && begin.Length == count.Length == nextLBlock.Length == MAX_EXTENTS && extent < MAX_EXTENTS
      && begin != count && begin != nextLBlock && count != nextLBlock
    }

    /** The registers hold this list with its running totals; the position is never in front of its extent. */
    ghost predicate Holds(es: seq<FileExtent>)
      reads this, begin, count, nextLBlock
      requires Valid()
    {
      && |es| <= MAX_EXTENTS && Begin(es, extent) <= pblock
      && forall i :: 0 <= i < MAX_EXTENTS ==>
           begin[i] == Begin(es, i) && count[i] == Count(es, i) && nextLBlock[i] == First(es, i + 1)
    }

    ghost function Position(): Cursor reads this { Cursor(extent, pblock) }

    constructor ()
      ensures Valid() && fresh(begin) && fresh(count) && fresh(nextLBlock)
    {
      begin, count, nextLBlock := new nat[MAX_EXTENTS], new nat[MAX_EXTENTS], new nat[MAX_EXTENTS];
      extent, pblock := 0, 0;
    }

    /** mtl_extmap_load: four extents per line, the line shifted by two words after each. */
    method Load(job: array<nat>, ghost es: seq<FileExtent>)
      requires Valid() && |es| <= MAX_EXTENTS && job.Length == PREFIX_WORDS + 2 * MAX_EXTENTS
      requires job != begin && job != count && job != nextLBlock
      requires forall i :: 0 <= i < MAX_EXTENTS ==>
        job[PREFIX_WORDS + 2 * i] == Begin(es, i) && job[PREFIX_WORDS + 2 * i + 1] == Count(es, i)
      modifies this, begin, count, nextLBlock
      ensures Valid() && Holds(es) && Position() == Cursor(0, Begin(es, 0))
    {
      var line: seq<nat> := [];
      var address: nat, last: nat := PREFIX_WORDS, 0;
      for i := 0 to MAX_EXTENTS
        invariant last == First(es, i) && Buffered(job[..], i, line, address)
        invariant forall k :: 0 <= k < i ==>
          begin[k] == Begin(es, k) && count[k] == Count(es, k) && nextLBlock[k] == First(es, k + 1)
      {
        var b, c;
        b, c, line, address := Fetch(job, i, line, address);
        FirstStep(es, i);
        last := last + c;
        begin[i], count[i], nextLBlock[i] := b, c, last;
      }
      extent, pblock := 0, begin[0];
    }

    /** mtl_extmap_seek: a linear search for the extent around the block. */
    method Seek(l: nat, ghost es: seq<FileExtent>) returns (found: bool)
      requires Valid() && Holds(es)
      modifies this
      ensures Valid() && Holds(es)
      ensures found <==> l < |Blocks(es)|
      ensures found ==> At(es, l, Position()) && pblock == Blocks(es)[l]
      ensures !found ==> Position() == old(Position())
    {
      for i := 0 to MAX_EXTENTS
        invariant First(es, i) <= l && Valid() && Position() == old(Position())
      {
        FirstStep(es, i);
        var first := if i == 0 then 0 else nextLBlock[i - 1];
        if first <= l < nextLBlock[i] {
          extent, pblock := i, begin[i] + (l - first);
          AtIsBlock(es, l, Position());
          return true;
        }
      }
      FirstGrows(es, |es|, MAX_EXTENTS);
      assert es[..|es|] == es;
      return false;
    }

    /** mtl_extmap_next as intended. */
    method Next(ghost es: seq<FileExtent>)
      requires Valid() && Holds(es)
      modifies this
      ensures Valid() && Holds(es) && Position() == NextBlock(es, old(Position()))
    {
      var boffset := pblock - begin[extent];
      if boffset + 1 < count[extent] {
        pblock := pblock + 1;
      } else {
        extent := (extent + 1) % MAX_EXTENTS;
        pblock := begin[extent];
      }
    }

    /** mtl_extmap_next as written. */
    method NextAsWritten(ghost es: seq<FileExtent>)
      requires Valid() && Holds(es)
      modifies this
      ensures Valid() && Holds(es) && Position() == NextLiteral(es, old(Position()))
    {
      var boffset := pblock - begin[extent];
      if boffset < count[extent] {
        pblock := pblock + 1;
      } else {
        extent := (extent + 1) % MAX_EXTENTS;
        pblock := begin[extent];
      }
    }

    method Step(literal: bool, ghost es: seq<FileExtent>)
      requires Valid() && Holds(es)
      modifies this
      ensures Valid() && Holds(es) && Position() == Stepped(es, old(Position()), literal)
    {
      if literal { NextAsWritten(es); } else { Next(es); }
    }
  }
}
