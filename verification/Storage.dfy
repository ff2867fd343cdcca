/**
 The in-memory storage backend: byte copies through an extent list, and what they mean for
 the bytes of a file.
 */
module Storage {
  import opened Basics
  import opened FileExtents

  const NUM_BLOCKS := 128 * 256
  const BLOCK_SIZE := 4096

  // ---- Addresses --------------------------------------------------------------------------

  /** The byte of the store behind byte i of a file. */
  function Address(es: seq<FileExtent>, i: nat): nat
    requires i < |Blocks(es)| * BLOCK_SIZE
  {
    Blocks(es)[i / BLOCK_SIZE] * BLOCK_SIZE + i % BLOCK_SIZE
  }

  ghost predicate BlockFits(es: seq<FileExtent>, size: nat, l: nat) {
    l < |Blocks(es)| && Blocks(es)[l] * BLOCK_SIZE + BLOCK_SIZE <= size
  }

  /** The store has room for every block of the list. */
  ghost predicate Fits(es: seq<FileExtent>, size: nat) {
    forall l: nat {:trigger BlockFits(es, size, l)} ::
      l < |Blocks(es)| ==> BlockFits(es, size, l)
  }

  ghost predicate Apart(es: seq<FileExtent>, l: nat, m: nat) {
    l < |Blocks(es)| && m < |Blocks(es)| && (Blocks(es)[l] == Blocks(es)[m] ==> l == m)
  }

  /** No two logical blocks share a physical block. */
  ghost predicate Injective(es: seq<FileExtent>) {
    forall l: nat, m: nat {:trigger Apart(es, l, m)} ::
      l < |Blocks(es)| && m < |Blocks(es)| ==> Apart(es, l, m)
  }

  /** Byte q of extent c: what the walk computes is the address of that file byte. */
  lemma {:induction false} AddressInExtent(es: seq<FileExtent>, c: nat, q: nat)
    requires c < |es| && q < es[c].length * BLOCK_SIZE
    ensures |Blocks(es[..c])| * BLOCK_SIZE + q < |Blocks(es)| * BLOCK_SIZE
    ensures Address(es, |Blocks(es[..c])| * BLOCK_SIZE + q) == es[c].offset * BLOCK_SIZE + q
  {
    BlockInExtent(es, c, q / BLOCK_SIZE);
  }

  lemma {:induction false} AddressFits(es: seq<FileExtent>, size: nat, i: nat)
    requires Fits(es, size) && i < |Blocks(es)| * BLOCK_SIZE
    ensures Address(es, i) < size
  {
    assert BlockFits(es, size, i / BLOCK_SIZE);
  }

  /** Equal addresses mean the same block and the same place in it. */
  lemma {:induction false} AddressesDiffer(es: seq<FileExtent>, fs: seq<FileExtent>, i: nat, j: nat)
    requires i < |Blocks(es)| * BLOCK_SIZE && j < |Blocks(fs)| * BLOCK_SIZE
    requires Address(es, i) == Address(fs, j)
    ensures Blocks(es)[i / BLOCK_SIZE] == Blocks(fs)[j / BLOCK_SIZE]
    ensures i % BLOCK_SIZE == j % BLOCK_SIZE
  {
  }

  lemma {:induction false} AddressInjective(es: seq<FileExtent>, i: nat, j: nat)
    requires Injective(es) && i < |Blocks(es)| * BLOCK_SIZE && j < |Blocks(es)| * BLOCK_SIZE
    requires Address(es, i) == Address(es, j)
    ensures i == j
  {
    AddressesDiffer(es, es, i, j);
    assert Apart(es, i / BLOCK_SIZE, j / BLOCK_SIZE);
  }

  /** The addresses of a range of file bytes, in order. */
  ghost function Addresses(es: seq<FileExtent>, offset: nat, length: nat): (r: seq<nat>)
    requires offset + length <= |Blocks(es)| * BLOCK_SIZE
    ensures |r| == length
    ensures forall k :: 0 <= k < length ==> r[k] == Address(es, offset + k)
  {
    seq<nat>(length, k requires 0 <= k < length => Address(es, offset + k))
  }

  lemma {:induction false} AddressesFit(es: seq<FileExtent>, size: nat, offset: nat, length: nat)
    requires Fits(es, size) && offset + length <= |Blocks(es)| * BLOCK_SIZE
    ensures Below(Addresses(es, offset, length), size)
  {
    forall k | 0 <= k < length ensures Addresses(es, offset, length)[k] < size { AddressFits(es, size, offset + k); }
  }

  // ---- Scattered writes -------------------------------------------------------------------

  ghost predicate Below(at: seq<nat>, n: nat) { forall k :: 0 <= k < |at| ==> at[k] < n }

  /** Store data[k] at at[k], in order. */
  ghost function Scatter(s: seq<Byte>, at: seq<nat>, data: seq<Byte>): (r: seq<Byte>)
    requires |at| == |data| && Below(at, |s|)
    ensures |r| == |s|
  {
    if data == [] then s
    else var k := |data| - 1; Scatter(s, at[..k], data[..k])[at[k] := data[k]]
  }

  /** Distinct targets read back what was stored. */
  lemma {:induction false} ScatterHit(s: seq<Byte>, at: seq<nat>, data: seq<Byte>, i: nat)
    requires |at| == |data| && Below(at, |s|) && i < |at|
    requires forall k, l :: 0 <= k < |at| && 0 <= l < |at| && at[k] == at[l] ==> k == l
    ensures Scatter(s, at, data)[at[i]] == data[i]
  {
    var k := |data| - 1;
    if i == k {
    } else {
      ScatterHit(s, at[..k], data[..k], i);
    }
  }

  /** Everything that is not a target keeps its value. */
  lemma {:induction false} ScatterMiss(s: seq<Byte>, at: seq<nat>, data: seq<Byte>, x: nat)
    requires |at| == |data| && Below(at, |s|) && x < |s|
    requires forall k :: 0 <= k < |at| ==> at[k] != x
    ensures Scatter(s, at, data)[x] == s[x]
  {
    if data == [] {
    } else {
      ScatterMiss(s, at[..|data| - 1], data[..|data| - 1], x);
    }
  }

  /** The store after the first `done` bytes were copied. */
  ghost predicate Copied(now: seq<Byte>, was: seq<Byte>, at: seq<nat>, data: seq<Byte>, done: nat) {
    |at| == |data| && done <= |data| && Below(at, |was|) && now == Scatter(was, at[..done], data[..done])
  }

  lemma {:induction false} CopyStep(now: seq<Byte>, was: seq<Byte>, at: seq<nat>, data: seq<Byte>, k: nat)
    requires k < |data| && Copied(now, was, at, data, k)
    ensures at[k] < |now| == |was|
    ensures Copied(now[at[k] := data[k]], was, at, data, k + 1)
  {
    assert at[..k + 1][..k] == at[..k] && data[..k + 1][..k] == data[..k];
  }

  lemma {:induction false} AllCopied(now: seq<Byte>, was: seq<Byte>, at: seq<nat>, data: seq<Byte>)
    requires Copied(now, was, at, data, |data|)
    ensures now == Scatter(was, at, data)
  {
    assert at[..|at|] == at && data[..|data|] == data;
  }

  // ---- The extent walk --------------------------------------------------------------------

  /** Step to the extent that holds byte `current` (the inner loop of both copies). */
  method FindExtent(es: seq<FileExtent>, current: nat, extent: nat, extentOffset: nat)
    returns (e: nat, o: nat)
    requires current < |Blocks(es)| * BLOCK_SIZE
    requires extent < |es| && extentOffset == |Blocks(es[..extent])| * BLOCK_SIZE <= current
    ensures e < |es| && o == |Blocks(es[..e])| * BLOCK_SIZE <= current < o + es[e].length * BLOCK_SIZE
  {
    e, o := extent, extentOffset;
    while o + es[e].length * BLOCK_SIZE <= current
      invariant e < |es| && o == |Blocks(es[..e])| * BLOCK_SIZE <= current
      decreases |es| - e
    {
      NextExtent(es, e);
      o := o + es[e].length * BLOCK_SIZE;
      assert es[..|es|] == es;
      e := e + 1;
      assert e < |es|;  // the caller made sure the file is large enough
    }
  }

  lemma {:induction false} NextExtent(es: seq<FileExtent>, e: nat)
    requires e < |es|
    ensures |Blocks(es[..e + 1])| * BLOCK_SIZE == |Blocks(es[..e])| * BLOCK_SIZE + es[e].length * BLOCK_SIZE
  {
    assert es[..e + 1] == es[..e] + [es[e]];
    BlocksSnoc(es[..e], es[e]);
  }

  /** Byte k of a chunk that starts at index `from` of a transfer goes to address base + k. */
  predicate Lands(at: seq<nat>, from: nat, base: nat, k: nat) { from + k < |at| && at[from + k] == base + k }

  ghost predicate Consecutive(at: seq<nat>, from: nat, len: nat, base: nat) {
    forall k: nat {:trigger Lands(at, from, base, k)} ::
      k < len ==> Lands(at, from, base, k)
  }

  /** Consecutive bytes of one extent are consecutive bytes of the store. */
  lemma {:induction false} ChunkAddresses(
      es: seq<FileExtent>, e: nat, o: nat, offset: nat, length: nat, from: nat, len: nat)
    requires e < |es| && offset + length <= |Blocks(es)| * BLOCK_SIZE && from + len <= length
    requires o == |Blocks(es[..e])| * BLOCK_SIZE <= offset + from
    requires offset + from + len <= o + es[e].length * BLOCK_SIZE
    ensures Consecutive(Addresses(es, offset, length), from, len, es[e].offset * BLOCK_SIZE + (offset + from - o))
  {
    var at, base := Addresses(es, offset, length), es[e].offset * BLOCK_SIZE + (offset + from - o);
    forall k: nat | k < len ensures Lands(at, from, base, k) {
      AddressInExtent(es, e, offset + from + k - o);
    }
  }

  /** mtl_storage_write, with the extent list already loaded. */
  method StorageWrite(storage: array<Byte>, es: seq<FileExtent>, offset: nat, buffer: seq<Byte>)
    requires Fits(es, storage.Length)
    requires offset + |buffer| <= |Blocks(es)| * BLOCK_SIZE && offset + |buffer| < storage.Length
    modifies storage
    ensures Below(Addresses(es, offset, |buffer|), storage.Length)
    ensures storage[..] == Scatter(old(storage[..]), Addresses(es, offset, |buffer|), buffer)
  {
    ghost var at, was := Addresses(es, offset, |buffer|), storage[..];
    AddressesFit(es, storage.Length, offset, |buffer|);
    var current, length := offset, |buffer|;
    var extent: nat, extentOffset: nat, done: nat := 0, 0, 0;
    while length > 0
      invariant done + length == |buffer| && current == offset + done
      invariant extent <= |es| && (extent < |es| || es == [])
      invariant extentOffset == |Blocks(es[..extent])| * BLOCK_SIZE && extentOffset <= current
      invariant Copied(storage[..], was, at, buffer, done)
    {
      extent, extentOffset := FindExtent(es, current, extent, extentOffset);
      var len := WriteChunk(storage, es, extent, current - extentOffset, buffer, done, was, offset, extentOffset);
      current, length, done := current + len, length - len, done + len;
    }
    AllCopied(storage[..], was, at, buffer);
  }

  /** Copy as much as the extent and the buffer allow. */
  method WriteChunk(storage: array<Byte>, es: seq<FileExtent>, extent: nat, pos: nat, buffer: seq<Byte>, done: nat,
                    ghost was: seq<Byte>, ghost offset: nat, ghost o: nat) returns (len: nat)
    requires extent < |es| && pos < es[extent].length * BLOCK_SIZE && done < |buffer| && |was| == storage.Length
    requires offset + |buffer| <= |Blocks(es)| * BLOCK_SIZE
    requires o == |Blocks(es[..extent])| * BLOCK_SIZE && o + pos == offset + done
    requires Copied(storage[..], was, Addresses(es, offset, |buffer|), buffer, done)
    modifies storage
    ensures 0 < len <= |buffer| - done
    ensures Copied(storage[..], was, Addresses(es, offset, |buffer|), buffer, done + len)
  {
    len := es[extent].length * BLOCK_SIZE - pos;
    if len > |buffer| - done { len := |buffer| - done; }
    ChunkAddresses(es, extent, o, offset, |buffer|, done, len);
    CopyIn(storage, es[extent].offset * BLOCK_SIZE + pos, buffer, done, len, was, Addresses(es, offset, |buffer|));
  }

  /** memcpy of one chunk. */
  method CopyIn(storage: array<Byte>, base: nat, buffer: seq<Byte>, from: nat, len: nat,
                ghost was: seq<Byte>, ghost at: seq<nat>)
    requires from + len <= |buffer| && |was| == storage.Length && Consecutive(at, from, len, base)
    requires Copied(storage[..], was, at, buffer, from)
    modifies storage
    ensures Copied(storage[..], was, at, buffer, from + len)
  {
    for k := 0 to len
      invariant Copied(storage[..], was, at, buffer, from + k)
    {
      assert Lands(at, from, base, k);
      CopyStep(storage[..], was, at, buffer, from + k);
      storage[base + k] := buffer[from + k];
    }
  }

  /** mtl_storage_read, with the extent list already loaded. */
  method StorageRead(storage: array<Byte>, es: seq<FileExtent>, offset: nat, buffer: array<Byte>, length: nat)
    requires Fits(es, storage.Length) && storage != buffer
    requires offset + length <= |Blocks(es)| * BLOCK_SIZE && offset + length < storage.Length
    requires length <= buffer.Length
    modifies buffer
    ensures Below(Addresses(es, offset, length), storage.Length)
    ensures forall k :: 0 <= k < length ==> buffer[k] == storage[Addresses(es, offset, length)[k]]
    ensures buffer[length..] == old(buffer[length..])
  {
    ghost var at := Addresses(es, offset, length);
    AddressesFit(es, storage.Length, offset, length);
    var current, left := offset, length;
    var extent, extentOffset := 0, 0;
    while left > 0
      invariant current + left == offset + length && offset <= current <= offset + length
      invariant extent <= |es| && (extent < |es| || es == [])
      invariant extentOffset == |Blocks(es[..extent])| * BLOCK_SIZE && extentOffset <= current
      invariant forall k :: 0 <= k < current - offset ==> buffer[k] == storage[at[k]]
      invariant buffer[length..] == old(buffer[length..])
    {
      extent, extentOffset := FindExtent(es, current, extent, extentOffset);
      var pos := current - extentOffset;
      var len := es[extent].length * BLOCK_SIZE - pos;
      if len > left { len := left; }
      ChunkAddresses(es, extent, extentOffset, offset, length, current - offset, len);
      CopyOut(storage, es[extent].offset * BLOCK_SIZE + pos, buffer, current - offset, len, length, at);
      current, left := current + len, left - len;
    }
  }

  method CopyOut(storage: array<Byte>, base: nat, buffer: array<Byte>, from: nat, len: nat, ghost length: nat,
                 ghost at: seq<nat>)
    requires storage != buffer && from + len <= length == |at| <= buffer.Length && Below(at, storage.Length)
    requires Consecutive(at, from, len, base)
    requires forall k :: 0 <= k < from ==> buffer[k] == storage[at[k]]
    modifies buffer
    ensures forall k :: 0 <= k < from + len ==> buffer[k] == storage[at[k]]
    ensures buffer[length..] == old(buffer[length..])
  {
    for j := 0 to len
      invariant forall k :: 0 <= k < from + j ==> buffer[k] == storage[at[k]]
      invariant buffer[length..] == old(buffer[length..])
    {
      assert Lands(at, from, base, j);
      buffer[from + j] := storage[base + j];
    }
  }
}
