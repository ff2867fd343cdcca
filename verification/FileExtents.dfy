/** Extent lists as the file layer, the storage walk and the FPGA map all read them. */
module FileExtents {

  datatype FileExtent = FileExtent(offset: nat, length: nat)

  /** The blocks [offset, offset + length) in order. */
  function Run(offset: nat, length: nat): (r: seq<nat>)
    ensures |r| == length
    ensures forall k :: 0 <= k < length ==> r[k] == offset + k
  {
    seq(length, k => offset + k)
  }

  /** The physical block behind each logical block of an extent list. */
  function Blocks(es: seq<FileExtent>): seq<nat> {
    if es == [] then [] else Blocks(es[..|es| - 1]) + Run(es[|es| - 1].offset, es[|es| - 1].length)
  }

  /** No extent starts where the one before it ends: it would have been grown instead. */
  ghost predicate Spread(es: seq<FileExtent>) {
    forall i: nat {:trigger Gap(es, i)} :: i + 1 < |es| ==> Gap(es, i)
  }

  predicate Gap(es: seq<FileExtent>, i: nat) {
    i + 1 < |es| && es[i].offset + es[i].length != es[i + 1].offset
  }

  lemma {:induction false} BlocksSnoc(es: seq<FileExtent>, e: FileExtent)
    ensures Blocks(es + [e]) == Blocks(es) + Run(e.offset, e.length)
  {
    assert (es + [e])[..|es|] == es;
  }

  /** Extents that are not empty are no more than their blocks. */
  lemma {:induction false} FewExtents(es: seq<FileExtent>)
    requires forall i :: 0 <= i < |es| ==> es[i].length > 0
    ensures |es| <= |Blocks(es)|
  {
    if es == [] {
    } else {
      FewExtents(es[..|es| - 1]);
    }
  }

  lemma {:induction false} RunSplit(offset: nat, l: nat, r: nat)
    ensures Run(offset, l + r) == Run(offset, l) + Run(offset + l, r)
  {
  }

  lemma {:induction false} Associative(a: seq<nat>, b: seq<nat>, c: seq<nat>)
    ensures (a + b) + c == a + (b + c)
  {
  }

  lemma {:induction false} BlocksConcat(a: seq<FileExtent>, b: seq<FileExtent>)
    ensures Blocks(a + b) == Blocks(a) + Blocks(b)
  {
    if b == [] {
      assert a + b == a;
    } else {
      var b', e := b[..|b| - 1], b[|b| - 1];
      assert a + b == (a + b') + [e];
      BlocksSnoc(a + b', e);
      BlocksConcat(a, b');
      Associative(Blocks(a), Blocks(b'), Run(e.offset, e.length));
    }
  }

  /** Cut at extent i: its blocks come after those of the extents before it. */
  lemma {:induction false} BlocksSplit(es: seq<FileExtent>, i: nat)
    requires i < |es|
    ensures Blocks(es) == Blocks(es[..i]) + Run(es[i].offset, es[i].length) + Blocks(es[i + 1..])
  {
    assert es == es[..i + 1] + es[i + 1..];
    BlocksConcat(es[..i + 1], es[i + 1..]);
    assert es[..i + 1] == es[..i] + [es[i]];
    BlocksSnoc(es[..i], es[i]);
  }

  /** Extent i covers the logical blocks from |Blocks(es[..i])| on. */
  lemma {:induction false} BlockInExtent(es: seq<FileExtent>, i: nat, k: nat)
    requires i < |es| && k < es[i].length
    ensures |Blocks(es[..i])| + k < |Blocks(es)|
    ensures Blocks(es)[|Blocks(es[..i])| + k] == es[i].offset + k
  {
    BlocksSplit(es, i);
  }

  /** Every logical block lies in some extent. */
  lemma {:induction false} ExtentOfBlock(es: seq<FileExtent>, l: nat) returns (i: nat, k: nat)
    requires l < |Blocks(es)|
    ensures i < |es|
    ensures k < es[i].length
    ensures l == |Blocks(es[..i])| + k
    ensures Blocks(es)[l] == es[i].offset + k
  {
    var j := |es| - 1;
    var init := es[..j];
    if l < |Blocks(init)| {
      i, k := ExtentOfBlock(init, l);
      assert init[..i] == es[..i];
    } else {
      i, k := j, l - |Blocks(init)|;
    }
  }
}
