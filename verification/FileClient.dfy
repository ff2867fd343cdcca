/**
 A client of the file layer: any sequence of requests, each carried out if it can be. The file
 layer ends in an assertion when space runs out, so the client looks first.
 */
module FileClient {
  import opened Basics
  import opened FileExtents
  import opened ExtentTable
  import opened Allocator
  import opened FileTable
  import opened Storage
  import opened FileSystem
  import F = FlatFiles

  datatype Request =
    | Create
    | Write(id: nat, offset: nat, data: seq<Byte>)
    | Truncate(id: nat, length: nat)
    | Unlink(id: nat)

  // ---- Space ------------------------------------------------------------------------------

  ghost function FreeBelow(t: Table, n: nat, o: nat): set<nat> {
    set b | b in FreeBlocks(Held(t), n) && b < o
  }

  /** Past one run, all of its blocks or none of them are free. */
  lemma {:induction false} FreePastRun(t: Table, n: nat, o: nat)
    requires Tiled(t, n) && o in t
    ensures |FreeBelow(t, n, End(t, o))| == |FreeBelow(t, n, o)| + if IsFree(t, o) then t[o].length else 0
  {
    assert Linked(t, n, o);
    var run := Interval(o, t[o].length);
    forall b | o <= b < End(t, o) ensures b in FreeBlocks(Held(t), n) <==> IsFree(t, o) { FreeBlockInRun(t, n, o, b); }
    if IsFree(t, o) {
      assert FreeBelow(t, n, End(t, o)) == FreeBelow(t, n, o) + run;
    } else {
      assert FreeBelow(t, n, End(t, o)) == FreeBelow(t, n, o);
    }
  }

  method CountFree(store: ExtentStore, n: nat) returns (free: nat)
    requires Tiled(store.table, n)
    ensures free == |FreeBlocks(Held(store.table), n)|
  {
    var o := 0;
    free := 0;
    assert FreeBelow(store.table, n, 0) == {};
    while o < n
      invariant o <= n && (o < n ==> o in store.table)
      invariant free == |FreeBelow(store.table, n, o)|
    {
      assert Linked(store.table, n, o);
      FreePastRun(store.table, n, o);
      var e := store.table[o];
      if e.status.Free? { free := free + e.length; }
      o := o + e.length;
    }
    assert FreeBelow(store.table, n, n) == FreeBlocks(Held(store.table), n);
  }

  method HasRoom(fs: MetalFs, id: nat, size: nat) returns (room: bool)
    requires fs.Valid() && id in fs.files
    ensures room <==> BlocksFor(size, BLOCK_SIZE) <= |Blocks(fs.files[id].extents)| + |fs.FreeSpace()|
  {
    var free := CountFree(fs.store, NUM_BLOCKS);
    var blocks := CountBlocks(fs.files[id].extents);
    room := BlocksFor(size, BLOCK_SIZE) <= blocks + free;
  }

  // ---- Requests ---------------------------------------------------------------------------

  /**
   Refused: the client did not call the file layer. Lost: a write left more extents than the
   backend loads, and it copied through a list it never filled.
   */
  datatype Reply = Done | Refused | Lost

  /** What a request does to the flat files. Nothing is known after a write that is lost. */
  ghost predicate Follows(m: F.Flat, r: Request, m': F.Flat, reply: Reply) {
    match reply
    case Refused => m' == m
    case Lost => r.Write?
    case Done =>
      match r
      case Create => exists id :: F.Step(m, F.Create(id), m')
      case Write(id, offset, data) => F.Step(m, F.Write(id, offset, data), m')
      case Truncate(id, length) => F.Step(m, F.Truncate(id, length), m')
      case Unlink(id) => F.Step(m, F.Unlink(id), m')
  }

  // Files of at most as many blocks as the backend loads extents: no write to one can be lost.

  const SMALL := MAX_EXTENTS * BLOCK_SIZE

  ghost predicate AllSmall(files: Files) { forall f :: f in files ==> files[f].length <= SMALL }

  predicate Small(r: Request) {
    match r
    case Write(_, offset, data) => offset + |data| <= SMALL
    case Truncate(_, length) => length <= SMALL
    case _ => true
  }

  lemma {:induction false} SmallFileLoads(a: Alloc, files: Files, id: nat)
    requires FsInv(a, files, NUM_BLOCKS, BLOCK_SIZE) && id in files && files[id].length <= SMALL
    ensures |files[id].extents| <= MAX_EXTENTS
  {
    forall i | 0 <= i < |files[id].extents| ensures files[id].extents[i].length > 0 {
      ExtentsAreCommitted(a, files, NUM_BLOCKS, BLOCK_SIZE, id, i);
    }
    FewExtents(files[id].extents);
    assert FileOk(files[id], BLOCK_SIZE);
  }

  method Perform(fs: MetalFs, r: Request) returns (reply: Reply)
    requires fs.Valid()
    modifies fs`files, fs`nextId, fs.store, fs.storage
    ensures fs.Valid() && Follows(old(fs.Flat()), r, fs.Flat(), reply)
    ensures AllSmall(old(fs.files)) && Small(r) ==> !reply.Lost? && AllSmall(fs.files)
  {
    if r.Create? {
      var _ := fs.Create();
      return Done;
    }
    if r.id !in fs.files { return Refused; }
    match r {
      case Write(id, offset, data) => reply := PerformWrite(fs, id, offset, data);
      case Truncate(id, length) => reply := PerformTruncate(fs, id, length);
      case Unlink(id) =>
        fs.Unlink(id);
        return Done;
    }
  }

  method PerformTruncate(fs: MetalFs, id: nat, length: nat) returns (reply: Reply)
    requires fs.Valid() && id in fs.files
    modifies fs`files, fs.store
    ensures fs.Valid() && !reply.Lost? && Follows(old(fs.Flat()), Request.Truncate(id, length), fs.Flat(), reply)
    ensures AllSmall(old(fs.files)) && length <= SMALL ==> AllSmall(fs.files)
  {
    var room := HasRoom(fs, id, length);
    if !room { return Refused; }
    fs.Truncate(id, length);
    assert fs.files[id].length == |fs.Flat()[id]| == length;
    reply := Done;
  }

  method PerformWrite(fs: MetalFs, id: nat, offset: nat, data: seq<Byte>) returns (reply: Reply)
    requires fs.Valid() && id in fs.files
    modifies fs`files, fs.store, fs.storage
    ensures fs.Valid() && Follows(old(fs.Flat()), Write(id, offset, data), fs.Flat(), reply)
    ensures AllSmall(old(fs.files)) && offset + |data| <= SMALL ==> !reply.Lost? && AllSmall(fs.files)
    ensures reply.Done? ==> offset + |data| < fs.storage.Length
  {
    var room := HasRoom(fs, id, offset + |data|);
    if !room || offset + |data| >= fs.storage.Length { return Refused; }
    var outcome := fs.Write(id, data, offset);
    if AllSmall(old(fs.files)) && offset + |data| <= SMALL { SmallFileLoads(fs.store.Value(), fs.files, id); }
    reply := if outcome.Ok? then Done else Lost;
  }

  /** Requests that may change byte i of a file. */
  predicate Disturbs(r: Request, id: nat, i: nat) {
    match r
    case Create => false
    case Write(f, offset, data) => f == id && offset <= i < offset + |data|
    case Truncate(f, length) => f == id && length <= i
    case Unlink(f) => f == id
  }

  predicate HasByte(m: F.Flat, id: nat, i: nat) { id in m && i < |m[id]| }

  ghost predicate SameByte(m: F.Flat, m': F.Flat, id: nat, i: nat) {
    && HasByte(m, id, i)
    && HasByte(m', id, i) && m'[id][i] == m[id][i]
  }

  lemma {:induction false} Undisturbed(m: F.Flat, r: Request, m': F.Flat, reply: Reply, id: nat, i: nat)
    requires Follows(m, r, m', reply) && !reply.Lost? && HasByte(m, id, i) && !Disturbs(r, id, i)
    ensures SameByte(m, m', id, i)
  {
  }

  ghost predicate Spared(rs: seq<Request>, id: nat, i: nat) {
    forall k :: 0 <= k < |rs| ==> !Disturbs(rs[k], id, i)
  }

  ghost predicate AllSmallRequests(rs: seq<Request>) { forall k :: 0 <= k < |rs| ==> Small(rs[k]) }

  /**
   Over any sequence of requests none of which is lost, every byte that none of them is about
   keeps its value; and none is lost if all files and requests are small.
   */
  method PerformAll(fs: MetalFs, rs: seq<Request>) returns (lost: bool)
    requires fs.Valid()
    modifies fs`files, fs`nextId, fs.store, fs.storage
    ensures fs.Valid()
    ensures AllSmall(old(fs.files)) && AllSmallRequests(rs) ==> !lost && AllSmall(fs.files)
    ensures !lost ==> forall id, i {:trigger Spared(rs, id, i)} ::
      HasByte(old(fs.Flat()), id, i) && Spared(rs, id, i) ==> SameByte(old(fs.Flat()), fs.Flat(), id, i)
  {
    ghost var m0 := fs.Flat();
    lost := false;
    for k := 0 to |rs|
      invariant fs.Valid() && !lost
      invariant AllSmall(old(fs.files)) && AllSmallRequests(rs) ==> AllSmall(fs.files)
      invariant forall id, i {:trigger Spared(rs, id, i)} ::
        HasByte(m0, id, i) && Spared(rs, id, i) ==> SameByte(m0, fs.Flat(), id, i)
    {
      ghost var m := fs.Flat();
      var reply := Perform(fs, rs[k]);
      if reply.Lost? { return true; }
      forall id, i | HasByte(m0, id, i) && Spared(rs, id, i) ensures SameByte(m0, fs.Flat(), id, i) {
        Undisturbed(m, rs[k], fs.Flat(), reply, id, i);
      }
    }
  }

  /**
   What was written is what is read: in any state the file system can be in, after a write and
   any requests that are not about the written bytes, none of them lost, reading the range
   returns those bytes.
   */
  method WriteThenRead(fs: MetalFs, id: nat, offset: nat, data: seq<Byte>, between: seq<Request>, buffer: array<Byte>)
    returns (written: Reply, lost: bool, read: Outcome, n: nat)
    requires fs.Valid() && buffer != fs.storage && 0 < |data| <= buffer.Length
    requires forall i {:trigger Spared(between, id, i)} :: offset <= i < offset + |data| ==> Spared(between, id, i)
    modifies fs`files, fs`nextId, fs.store, fs.storage, buffer
    ensures fs.Valid()
    ensures AllSmall(old(fs.files)) && Small(Write(id, offset, data)) && AllSmallRequests(between) ==>
      !written.Lost? && !lost && (written.Done? ==> read.Ok?)
    ensures written.Done? && !lost ==>
      id in fs.files && n == |data| && (read.Ok? <==> |fs.files[id].extents| <= MAX_EXTENTS)
    ensures written.Done? && !lost && read.Ok? ==> buffer[..n] == data
  {
    n, read, lost, written := 0, Ok, false, Refused;
    if id !in fs.files { return; }
    written := PerformWrite(fs, id, offset, data);
    if !written.Done? { return; }
    ghost var m := fs.Flat();
    lost := PerformAll(fs, between);
    if lost { return; }
    WrittenBytesStay(m, fs.Flat(), id, offset, data, between);
    read, n := ReadBack(fs, id, offset, data, buffer);
  }

  method ReadBack(fs: MetalFs, id: nat, offset: nat, data: seq<Byte>, buffer: array<Byte>)
    returns (read: Outcome, n: nat)
    requires fs.Valid() && buffer != fs.storage && |data| <= buffer.Length && offset + |data| < fs.storage.Length
    requires id in fs.files && offset + |data| <= |fs.Flat()[id]| && fs.Flat()[id][offset..offset + |data|] == data
    modifies buffer
    ensures n == |data| && (read.Ok? ==> buffer[..n] == data)
    ensures read.Ok? <==> n == 0 || |fs.files[id].extents| <= MAX_EXTENTS
    ensures fs.files[id].length <= SMALL ==> read.Ok?
  {
    read, n := fs.Read(id, buffer, |data|, offset);
    if fs.files[id].length <= SMALL { SmallFileLoads(fs.store.Value(), fs.files, id); }
  }

  lemma {:induction false} WrittenBytesStay(
      m: F.Flat, m': F.Flat, id: nat, offset: nat, data: seq<Byte>, between: seq<Request>)
    requires id in m && offset + |data| <= |m[id]| && m[id][offset..offset + |data|] == data && data != []
    requires forall i {:trigger Spared(between, id, i)} :: offset <= i < offset + |data| ==> Spared(between, id, i)
    requires forall f, i {:trigger Spared(between, f, i)} ::
      HasByte(m, f, i) && Spared(between, f, i) ==> SameByte(m, m', f, i)
    ensures id in m'
    ensures offset + |data| <= |m'[id]|
    ensures m'[id][offset..offset + |data|] == data
  {
    assert Spared(between, id, offset + |data| - 1) && SameByte(m, m', id, offset + |data| - 1);
    forall k | 0 <= k < |data| ensures m'[id][offset + k] == data[k] {
      assert Spared(between, id, offset + k) && SameByte(m, m', id, offset + k);
      assert m[id][offset..offset + |data|][k] == m[id][offset + k];
    }
  }
}
