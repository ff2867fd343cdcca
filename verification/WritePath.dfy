/**
 The three stages of a write, one behind the other: a transfer is split into parts, the parts
 are filled from the stream, and what was filled is written back to NVMe.
 */
module WritePath {
  import opened Basics
  import opened FileExtents
  import opened ExtentMap
  import opened Transfers
  import opened Issuing
  import T = StreamTransfer
  import B = NvmeWriteBack

  /** The parts as the elements the next stage reads; all have the type of the transfer. */
  function Elements(parts: seq<Part>, kind: T.AddressType): (r: seq<T.Element>)
    ensures |r| == |parts|
    ensures forall k :: 0 <= k < |r| ==> r[k] == T.Element(parts[k].address, parts[k].size, kind, parts[k].last)
  {
    seq(|parts|, k requires 0 <= k < |parts| => T.Element(parts[k].address, parts[k].size, kind, parts[k].last))
  }

  lemma {:induction false} AwaitingAll(es: seq<T.Element>, kind: T.AddressType)
    requires forall k :: 0 <= k < |es| ==> es[k].kind == kind
    ensures B.Awaiting(es) == if kind.NVMe? then |es| else 0
  {
    if es == [] {
    } else {
      AwaitingAll(es[..|es| - 1], kind);
    }
  }

  /** The commands, said about the parts alone: sizes, last flags and addresses, offset for the card. */
  ghost predicate Delivered(parts: seq<Part>, kind: T.AddressType, commands: seq<T.Command>) {
    && |commands| <= |parts|
    && forall j :: 0 <= j < |commands| ==>
         && commands[j].bytes == parts[j].size && commands[j].endOfFrame == parts[j].last
         && commands[j].address == parts[j].address + if kind.Host? then 0 else 0x8000_0000_0000_0000
  }

  lemma {:induction false} TransferredIsDelivered(parts: seq<Part>, kind: T.AddressType, sts: seq<T.Status>,
      commands: seq<T.Command>, output: seq<T.Element>, size: nat)
    requires T.Transferred(Elements(parts, kind), sts, commands, output, size)
    ensures Delivered(parts, kind, commands)
  {
    forall j | 0 <= j < |commands| ensures T.Moves(commands[j], Elements(parts, kind)[j]) { }
  }

  /**
   Split a transfer and fill its parts from the stream. The parts and the queue are those of a
   write: NVMe data is staged in the upper 2 GiB. The commands move stream bytes to the parts.
   */
  method Fill(m: MapType, literal: bool, address: nat, size: nat, dram: Map, nvme: Map, kind: T.AddressType,
              sts: seq<T.Status>, permitCap: nat, pendingCap: nat, turns: seq<T.Who>,
              ghost esD: seq<FileExtent>, ghost esN: seq<FileExtent>)
    returns (parts: seq<Part>, queue: seq<nat>, commands: seq<T.Command>, output: seq<T.Element>, received: nat)
    requires dram != nvme && dram.Valid() && nvme.Valid() && dram.Holds(esD) && nvme.Holds(esN)
    requires size > 0 && |Sizes(address, size)| <= |sts| && permitCap >= 1 && pendingCap >= 1
    modifies dram, nvme
    ensures |parts| == |output| == |Sizes(address, size)| && T.OneTransfer(Elements(parts, kind))
    ensures Chunked(address, size, parts)
    ensures DataGoes(m, false, literal, address, size, esD, AllBytes(parts))
    ensures NvmeGoes(m, literal, address, size, esN, parts, queue)
    ensures T.Transferred(Elements(parts, kind), sts, commands, output, received)
    ensures output == T.Loop(Elements(parts, kind), sts, |parts|).output
    ensures Delivered(parts, kind, commands)
    ensures (UsesNvme(m) <==> kind.NVMe?) ==> |queue| == B.Awaiting(output)
  {
    parts, queue := IssuePartialTransfers(m, false, literal, address, size, dram, nvme, esD, esN);
    commands, output, received := T.TransferFromStream(Elements(parts, kind), sts, permitCap, pendingCap, turns);
    TransferredIsDelivered(parts, kind, sts, commands, output, received);
    AwaitingAll(output, kind);
  }

  /**
   A write to an NVMe file, under every schedule of its write-back: it gets through exactly when
   the packet does not end before the transfer's last part.
   */
  lemma {:induction false} NvmeWriteFinishesIff(
      parts: seq<Part>, sts: seq<T.Status>, ss: seq<B.Flow>, ws: seq<B.Actor>, cap: nat)
    requires T.OneTransfer(Elements(parts, T.NVMe)) && |parts| <= |sts| && cap >= 1
    requires forall k :: 0 <= k < |parts| ==> Elements(parts, T.NVMe)[k].size > 0
    requires B.IsRun(ss, ws, T.Loop(Elements(parts, T.NVMe), sts, |parts|).output, cap)
    requires forall who :: !B.Enabled(ss[|ws|], who, |parts|, cap)
    ensures B.Finished(ss[|ws|], |parts|) <==> forall j :: 0 <= j < |parts| - 1 ==> !sts[j].endOfPacket
  {
    var input := Elements(parts, T.NVMe);
    B.WriteBackFinishesIff(input, sts, ss, ws, cap);
    assert B.EndsBefore(sts, |parts| - 1) && input[|parts| - 1].kind.NVMe? <==>
      exists j :: 0 <= j < |parts| - 1 && sts[j].endOfPacket;
  }
}
