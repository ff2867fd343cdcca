/** What users see: each file is a flat sequence of bytes. */
module FlatFiles {
  import opened Basics
  import opened Storage

  type Flat = map<nat, seq<Byte>>

  datatype Op =
    | Create(id: nat)
    | Write(id: nat, offset: nat, data: seq<Byte>)
    | Truncate(id: nat, length: nat)
    | Unlink(id: nat)

  /** Bytes outside the written range stay; bytes of a gap the write opens are not specified. */
  ghost predicate Overwrites(old_: seq<Byte>, offset: nat, data: seq<Byte>, new_: seq<Byte>) {
    && |new_| == Max(|old_|, offset + |data|)
    && new_[offset..offset + |data|] == data
    && forall i :: 0 <= i < |old_| && !(offset <= i < offset + |data|) ==> new_[i] == old_[i]
  }

  /** Growing does not specify the new bytes. */
  ghost predicate Resizes(old_: seq<Byte>, length: nat, new_: seq<Byte>) {
    && |new_| == length
    && forall i :: 0 <= i < |old_| && i < length ==> new_[i] == old_[i]
  }

  ghost predicate OthersSame(m: Flat, id: nat, m': Flat) {
    m'.Keys == m.Keys && forall f :: f in m && f != id ==> m'[f] == m[f]
  }

  ghost predicate Step(m: Flat, op: Op, m': Flat) {
    match op
    case Create(id) => id !in m && m' == m[id := []]
    case Write(id, offset, data) => id in m && OthersSame(m, id, m') && Overwrites(m[id], offset, data, m'[id])
    case Truncate(id, length) => id in m && OthersSame(m, id, m') && Resizes(m[id], length, m'[id])
    case Unlink(id) => id in m && m' == m - {id}
  }

  /** Operations after which byte i of file id may have changed. */
  predicate Touches(op: Op, id: nat, i: nat) {
    op.id == id && match op
    case Create(_) => true
    case Write(_, offset, data) => offset <= i < offset + |data|
    case Truncate(_, length) => length <= i
    case Unlink(_) => true
  }

  /**
   A byte reads as it was last written, whatever happens to other bytes and other files: over
   every run, as long as nothing since the write at step w covers, cuts off or removes it.
   */
  lemma {:induction false} LastWriteWins(ms: seq<Flat>, ops: seq<Op>, w: nat, k: nat, id: nat, i: nat)
    requires |ms| == |ops| + 1 && forall j :: 0 <= j < |ops| ==> Step(ms[j], ops[j], ms[j + 1])
    requires w < k <= |ops| && ops[w].Write? && Touches(ops[w], id, i)
    requires forall j :: w < j < k ==> !Touches(ops[j], id, i)
    ensures id in ms[k]
    ensures i < |ms[k][id]|
    ensures ms[k][id][i] == ops[w].data[i - ops[w].offset]
  {
    var op := ops[k - 1];
    assert Step(ms[k - 1], op, ms[k - 1 + 1]);
    if k == w + 1 {
      var n := ms[k][id];
      assert n[op.offset..op.offset + |op.data|][i - op.offset] == n[i];
    } else {
      LastWriteWins(ms, ops, w, k - 1, id, i);
      assert !Touches(op, id, i);
    }
  }
}
