/**
 Directory data as bytes: entries of a 16-byte head (eight bytes of inode id, one byte of name
 length, seven bytes of padding) and the name. Scanning, appending and removing entries.
 */
module Directory {
  import opened Basics

  /** An inode id as its eight bytes in memory. */
  type Id = s: seq<Byte> | |s| == 8 witness [0, 0, 0, 0, 0, 0, 0, 0]
  /** A C string without its terminator; the callers keep names below 256 bytes. */
  type Name = s: seq<Byte> | |s| < 256 witness []
  /** The padding of a head is never initialised: any seven bytes. */
  type Pad = s: seq<Byte> | |s| == 7 witness [0, 0, 0, 0, 0, 0, 0]

  const HEAD := 16

  datatype Entry = Entry(id: Id, pad: Pad, name: Name)

  function Size(e: Entry): nat { HEAD + |e.name| }

  function EntryBytes(e: Entry): (r: seq<Byte>)
    ensures |r| == Size(e)
  {
    e.id + [|e.name|] + e.pad + e.name
  }

  function Encode(es: seq<Entry>): seq<Byte> {
    if es == [] then [] else Encode(es[..|es| - 1]) + EntryBytes(es[|es| - 1])
  }

  // ---- Reading entries --------------------------------------------------------------------

  /** mtl_load_next_directory_entry: is there a head at pos? */
  predicate HasEntry(data: seq<Byte>, pos: nat) { pos + HEAD <= |data| }

  /** The entry at pos, if its name lies inside the data. */
  function EntryAt(data: seq<Byte>, pos: nat): Option<Entry> {
    if !HasEntry(data, pos) then None
    else
      var n := data[pos + 8];
      if pos + HEAD + n > |data| then None
      else Some(Entry(data[pos..pos + 8], data[pos + 9..pos + HEAD], data[pos + HEAD..pos + HEAD + n]))
  }

  /** The whole scan from pos: nothing but complete entries. */
  function Parse(data: seq<Byte>, pos: nat): Option<seq<Entry>>
    decreases |data| - pos
  {
    if pos == |data| then Some([])
    else if pos > |data| then None
    else
      var e := EntryAt(data, pos);
      if e.None? then None
      else
        var rest := Parse(data, pos + Size(e.value));
        if rest.None? then None else Some([e.value] + rest.value)
  }

  /** The bytes of an entry stand at pos, and a scan finds it there. */
  ghost predicate FoundAt(data: seq<Byte>, pos: nat, e: Entry) {
    && pos + Size(e) <= |data|
    && EntryAt(data, pos) == Some(e)
    && data[pos..pos + Size(e)] == EntryBytes(e)
    && data[pos..pos + 8] == e.id && data[pos + 8] == |e.name| && data[pos + 16..pos + 16 + |e.name|] == e.name
  }

  /** Entry i of an encoded list is found where the entries before it end. */
  lemma {:induction false} EntryFound(es: seq<Entry>, i: nat)
    requires i < |es|
    ensures FoundAt(Encode(es), |Encode(es[..i])|, es[i])
    ensures Encode(es[..i + 1]) == Encode(es[..i]) + EntryBytes(es[i])
  {
    EncodeNext(es, i);
    if i + 1 == |es| {
      assert es[..i + 1] == es;
      EntryAtEnd(Encode(es[..i]), es[i]);
    } else {
      var init, last := es[..|es| - 1], es[|es| - 1];
      EntryFound(init, i);
      assert init[..i] == es[..i];
      LongerKeeps(Encode(init), EntryBytes(last), |Encode(es[..i])|, es[i]);
    }
  }

  lemma {:induction false} EncodeNext(es: seq<Entry>, i: nat)
    requires i < |es|
    ensures Encode(es[..i + 1]) == Encode(es[..i]) + EntryBytes(es[i])
  {
    assert es[..i + 1][..i] == es[..i];
  }

  /** More bytes behind an entry leave it where it is. */
  lemma {:induction false} LongerKeeps(a: seq<Byte>, more: seq<Byte>, pos: nat, e: Entry)
    requires FoundAt(a, pos, e)
    ensures FoundAt(a + more, pos, e)
  {
    SameEntry(a, a + more, pos);
    assert (a + more)[pos..pos + Size(e)] == a[pos..pos + Size(e)];
  }

  lemma {:induction false} EntryAtEnd(pre: seq<Byte>, e: Entry)
    ensures FoundAt(pre + EntryBytes(e), |pre|, e)
  {
    var b := EntryBytes(e);
    var d := pre + b;
    assert b[8] == |e.name| && b[..8] == e.id && b[9..HEAD] == e.pad && b[HEAD..] == e.name;
    assert d[|pre|..|pre| + 8] == b[..8];
    assert d[|pre| + 9..|pre| + HEAD] == b[9..HEAD];
    assert d[|pre| + HEAD..|pre| + |b|] == b[HEAD..];
  }

  lemma {:induction false} SameEntry(a: seq<Byte>, b: seq<Byte>, pos: nat)
    requires a <= b && EntryAt(a, pos).Some?
    ensures EntryAt(b, pos) == EntryAt(a, pos)
  {
    var n := a[pos + 8];
    assert a[pos..pos + 8] == b[pos..pos + 8];
    assert a[pos + 9..pos + HEAD] == b[pos + 9..pos + HEAD];
    assert a[pos + HEAD..pos + HEAD + n] == b[pos + HEAD..pos + HEAD + n];
  }

  /** Scanning what was encoded gives the entries back. */
  lemma {:induction false} ParseEncode(es: seq<Entry>, i: nat)
    requires i <= |es|
    ensures Parse(Encode(es), |Encode(es[..i])|) == Some(es[i..])
    decreases |es| - i
  {
    if i == |es| {
      assert es[..i] == es && es[i..] == [];
    } else {
      EntryScanned(es, i);
      ParseEncode(es, i + 1);
      ParseStep(Encode(es), |Encode(es[..i])|, es[i], |Encode(es[..i + 1])|, es[i + 1..]);
      HeadAndTail(es, i);
    }
  }

  lemma {:induction false} EntryScanned(es: seq<Entry>, i: nat)
    requires i < |es|
    ensures EntryAt(Encode(es), |Encode(es[..i])|) == Some(es[i])
    ensures |Encode(es[..i + 1])| == |Encode(es[..i])| + Size(es[i])
  {
    EntryFound(es, i);
  }

  lemma {:induction false} HeadAndTail(es: seq<Entry>, i: nat)
    requires i < |es|
    ensures es[i..] == [es[i]] + es[i + 1..]
  {
  }

  lemma {:induction false} ParseStep(data: seq<Byte>, pos: nat, e: Entry, next: nat, rest: seq<Entry>)
    requires EntryAt(data, pos) == Some(e) && next == pos + Size(e) && Parse(data, next) == Some(rest)
    ensures Parse(data, pos) == Some([e] + rest)
  {
  }

  // ---- Directories ------------------------------------------------------------------------

  ghost predicate DistinctNames(es: seq<Entry>) {
    forall i: nat, j: nat {:trigger Differ(es, i, j)} ::
      i < j < |es| ==> Differ(es, i, j)
  }

  predicate Differ(es: seq<Entry>, i: nat, j: nat) {
    i < j < |es| && es[i].name != es[j].name
  }

  ghost predicate Named(es: seq<Entry>, i: int, name: Name) {
    0 <= i < |es| && es[i].name == name
  }
  ghost predicate HasName(es: seq<Entry>, name: Name) { exists i :: Named(es, i, name) }

  /** Compare the entry at pos, which is entry i, with a name. */
  method Look(data: seq<Byte>, pos: nat, name: Name, ghost es: seq<Entry>, ghost i: nat) returns (size: nat, same: bool)
    requires data == Encode(es) && i <= |es| && pos == |Encode(es[..i])| && HasEntry(data, pos)
    ensures i < |es| && size == Size(es[i]) && pos + size == |Encode(es[..i + 1])| <= |data|
    ensures same <==> es[i].name == name
    ensures data[pos..pos + 8] == es[i].id && data[pos..pos + size] == EntryBytes(es[i])
  {
    MoreEntries(es, i);
    EntryFound(es, i);
    EntryFields(data, pos, es[i]);
    var n := data[pos + 8];
    size, same := HEAD + n, n == |name| && data[pos + HEAD..pos + HEAD + n] == name;
  }

  lemma {:induction false} EntryFields(data: seq<Byte>, pos: nat, e: Entry)
    requires FoundAt(data, pos, e)
    ensures data[pos + 8] == |e.name|
    ensures data[pos..pos + 8] == e.id
    ensures data[pos + HEAD..pos + HEAD + |e.name|] == e.name
  {
  }

  /** The scan that resolve and append share: the first entry with the name. */
  method Find(data: seq<Byte>, name: Name, ghost es: seq<Entry>) returns (id: Option<Id>)
    requires data == Encode(es)
    ensures id.Some? <==> HasName(es, name)
    ensures id.Some? ==> exists i :: Named(es, i, name) && es[i].id == id.value
  {
    var pos := 0;
    ghost var i := 0;
    assert es[..0] == [] && es[..|es|] == es;
    while HasEntry(data, pos)
      invariant i <= |es| && pos == |Encode(es[..i])| <= |data|
      invariant forall j :: 0 <= j < i ==> es[j].name != name
      decreases |data| - pos
    {
      var size, same := Look(data, pos, name, es, i);
      if same {
        assert Named(es, i, name);
        return Some(data[pos..pos + 8]);
      }
      pos, i := pos + size, i + 1;
    }
    if i < |es| { EntryFound(es, i); }
    return None;
  }

  lemma {:induction false} MoreEntries(es: seq<Entry>, i: nat)
    requires i <= |es| && |Encode(es[..i])| < |Encode(es)|
    ensures i < |es|
  {
    assert es[..|es|] == es;
  }

  datatype AppendResult = Appended(data: seq<Byte>) | Exists
  datatype RemoveResult = Removed(data: seq<Byte>, id: Id) | NoEntry | Overrun

  /** mtl_append_inode_id_to_directory: a new entry at the end, unless the name is taken. */
  method Append(data: seq<Byte>, name: Name, id: Id, pad: Pad, ghost es: seq<Entry>) returns (r: AppendResult)
    requires data == Encode(es)
    ensures r.Exists? <==> HasName(es, name)
    ensures r.Appended? ==> r.data == Encode(es + [Entry(id, pad, name)])
  {
    var found := Find(data, name, es);
    if found.Some? { return Exists; }
    assert (es + [Entry(id, pad, name)])[..|es|] == es;
    return Appended(data + (id + [|name|] + pad + name));
  }

  /** All entries but those with the name, in order. */
  function Without(es: seq<Entry>, name: Name): seq<Entry> {
    if es == [] then []
    else
      var rest := Without(es[..|es| - 1], name);
      if es[|es| - 1].name == name then rest else rest + [es[|es| - 1]]
  }

  /** An entry with the name, at i or behind it, leaves room for its bytes. */
  lemma {:induction false} LaterWouldFit(es: seq<Entry>, i: nat, name: Name)
    requires i <= |es|
    ensures |Encode(es[..i])| + HEAD + |name| > |Encode(es)| ==> forall k :: i <= k < |es| ==> es[k].name != name
  {
    forall k | i <= k < |es| && es[k].name == name
      ensures |Encode(es[..i])| + HEAD + |name| <= |Encode(es)|
    {
      EntryFound(es, k);
      PrefixShorter(es, i, k);
    }
  }

  lemma {:induction false} PrefixShorter(es: seq<Entry>, i: nat, k: nat)
    requires i <= k <= |es|
    ensures |Encode(es[..i])| <= |Encode(es[..k])|
  {
    if i == k {
    } else {
      PrefixShorter(es, i, k - 1);
      EntryFound(es, k - 1);
    }
  }

  lemma {:induction false} AppendEncoded(es: seq<Entry>, e: Entry, data: seq<Byte>, pos: nat)
    requires pos + Size(e) <= |data| && data[pos..pos + Size(e)] == EntryBytes(e)
    ensures Encode(es) + data[pos..pos + HEAD] + data[pos + HEAD..pos + Size(e)] == Encode(es + [e])
  {
    assert (es + [e])[..|es|] == es;
    assert data[pos..pos + HEAD] + data[pos + HEAD..pos + Size(e)] == data[pos..pos + Size(e)];
  }

  /**
   mtl_remove_entry_from_directory. The new length is computed first, by an unsigned
   subtraction; in a directory too short for the name it wraps to a length far beyond any
   buffer, which ends here as Overrun.
   */
  method Remove(data: seq<Byte>, name: Name, ghost es: seq<Entry>) returns (r: RemoveResult)
    requires data == Encode(es) && DistinctNames(es)
    ensures r.Overrun? <==> |data| < HEAD + |name|
    ensures r.Removed? <==> HasName(es, name)
    ensures r.Removed? ==> r.data == Encode(Without(es, name)) && exists i :: Named(es, i, name) && es[i].id == r.id
  {
    if |data| < HEAD + |name| {
      LaterWouldFit(es, 0, name);
      return Overrun;
    }
    r := CopyOthers(data, name, |data| - (HEAD + |name|), es);
  }

  /** Copy every other entry; more bytes than the new length holds mean the name was not there. */
  method CopyOthers(data: seq<Byte>, name: Name, newLength: nat, ghost es: seq<Entry>) returns (r: RemoveResult)
    requires data == Encode(es) && DistinctNames(es) && newLength + HEAD + |name| == |data|
    ensures !r.Overrun? && (r.Removed? <==> HasName(es, name))
    ensures r.Removed? ==> r.data == Encode(Without(es, name)) && exists i :: Named(es, i, name) && es[i].id == r.id
  {
    var out: seq<Byte>, id: Option<Id> := [], None;
    var pos := 0;
    ghost var i, hit := 0, 0;
    assert es[..0] == [];
    while HasEntry(data, pos)
      invariant Copied(es, i, name, pos, out, id, hit) && pos <= |data| && (id.None? ==> pos <= newLength)
      decreases |data| - pos
    {
      var fits, size;
      fits, size, out, id, hit := CopyEntry(data, name, newLength, pos, out, id, es, i, hit);
      if !fits { return NoEntry; }
      pos, i := pos + size, i + 1;
    }
    AllCopied(es, i, name, pos, out, id, hit, data, newLength);
    return Removed(out, id.value);
  }

  /** One entry of the copy: skipped if it has the name, otherwise copied if there is room left. */
  method CopyEntry(data: seq<Byte>, name: Name, newLength: nat, pos: nat, out: seq<Byte>, id: Option<Id>,
                   ghost es: seq<Entry>, ghost i: nat, ghost hit: nat)
    returns (fits: bool, size: nat, out': seq<Byte>, id': Option<Id>, ghost hit': nat)
    requires data == Encode(es) && DistinctNames(es) && newLength + HEAD + |name| == |data| && HasEntry(data, pos)
    requires Copied(es, i, name, pos, out, id, hit)
    ensures 0 < size && pos + size <= |data|
    ensures fits ==> Copied(es, i + 1, name, pos + size, out', id', hit')
    ensures fits && id'.None? ==> pos + size <= newLength
    ensures !fits ==> !HasName(es, name)
  {
    var same;
    size, same := Look(data, pos, name, es, i);
    fits, out', id', hit' := true, out, id, hit;
    if same {
      CopiedSkip(es, i, name, pos, out, id, hit);
      id', hit' := Some(data[pos..pos + 8]), i;
    } else if |out| + size > newLength {
      NotFound(es, i, name, pos, out, id, hit);
      fits := false;
    } else {
      CopiedOne(es, i, name, pos, out, id, hit, data);
      // the head, then the name
      out' := out + data[pos..pos + HEAD] + data[pos + HEAD..pos + size];
    }
  }

  /** The state of the copy before entry i: everything so far but the entry with the name. */
  ghost predicate Copied(es: seq<Entry>, i: nat, name: Name, pos: nat, out: seq<Byte>, id: Option<Id>, hit: nat) {
    && i <= |es|
    && pos == |Encode(es[..i])|
    && out == Encode(Without(es[..i], name))
    && (id.Some? ==> hit < i && Named(es, hit, name) && es[hit].id == id.value && |out| + HEAD + |name| == pos)
    && (id.None? ==> |out| == pos && forall k :: 0 <= k < i ==> es[k].name != name)
  }

  lemma {:induction false} CopiedSkip(
      es: seq<Entry>, i: nat, name: Name, pos: nat, out: seq<Byte>, id: Option<Id>, hit: nat)
    requires Copied(es, i, name, pos, out, id, hit) && DistinctNames(es) && Named(es, i, name)
    ensures Copied(es, i + 1, name, pos + Size(es[i]), out, Some(es[i].id), i)
  {
    EntryScanned(es, i);
    WithoutNext(es, i, name);
    assert id.Some? ==> Differ(es, hit, i);
  }

  lemma {:induction false} WithoutNext(es: seq<Entry>, i: nat, name: Name)
    requires i < |es|
    ensures es[i].name == name ==> Without(es[..i + 1], name) == Without(es[..i], name)
    ensures es[i].name != name ==> Without(es[..i + 1], name) == Without(es[..i], name) + [es[i]]
  {
    assert es[..i + 1][..i] == es[..i];
  }

  lemma {:induction false} CopiedOne(
      es: seq<Entry>, i: nat, name: Name, pos: nat, out: seq<Byte>, id: Option<Id>, hit: nat, data: seq<Byte>)
    requires Copied(es, i, name, pos, out, id, hit) && i < |es| && es[i].name != name
    requires pos + Size(es[i]) <= |data| && data[pos..pos + Size(es[i])] == EntryBytes(es[i])
    ensures Copied(es, i + 1, name, pos + Size(es[i]),
                   out + data[pos..pos + HEAD] + data[pos + HEAD..pos + Size(es[i])], id, hit)
  {
    EntryScanned(es, i);
    WithoutNext(es, i, name);
    AppendEncoded(Without(es[..i], name), es[i], data, pos);
  }

  lemma {:induction false} NotFound(
      es: seq<Entry>, i: nat, name: Name, pos: nat, out: seq<Byte>, id: Option<Id>, hit: nat)
    requires Copied(es, i, name, pos, out, id, hit) && i < |es| && es[i].name != name
    requires |out| + Size(es[i]) + HEAD + |name| > |Encode(es)|
    ensures !HasName(es, name)
  {
    EntryFound(es, i);
    PrefixShorter(es, i + 1, |es|);
    assert es[..|es|] == es;
    LaterWouldFit(es, i + 1, name);
  }

  lemma {:induction false} AllCopied(es: seq<Entry>, i: nat, name: Name, pos: nat, out: seq<Byte>, id: Option<Id>,
                                     hit: nat, data: seq<Byte>, newLength: nat)
    requires Copied(es, i, name, pos, out, id, hit) && data == Encode(es) && !HasEntry(data, pos)
    requires newLength < |data| && (id.None? ==> pos <= newLength)
    ensures id.Some?
    ensures out == Encode(Without(es, name))
    ensures Named(es, hit, name)
    ensures es[hit].id == id.value
  {
    assert es[..|es|] == es;
    if i < |es| { EntryFound(es, i); }
  }

  // ---- What removal and any run of changes mean -------------------------------------------

  /** With distinct names exactly one entry goes, and the rest keeps its order. */
  lemma {:induction false} WithoutDeletesOne(es: seq<Entry>, k: nat)
    requires DistinctNames(es) && k < |es|
    ensures Without(es, es[k].name) == es[..k] + es[k + 1..]
  {
    var init, last, name := es[..|es| - 1], es[|es| - 1], es[k].name;
    DroppedFromInit(es, k);
    if k == |es| - 1 {
      forall i | 0 <= i < |init| ensures init[i].name != name { assert Differ(es, i, k); }
      WithoutMissing(init, name);
    } else {
      InitDistinct(es);
      WithoutDeletesOne(init, k);
      assert Differ(es, k, |es| - 1);
    }
  }

  lemma {:induction false} InitDistinct(es: seq<Entry>)
    requires DistinctNames(es) && es != []
    ensures DistinctNames(es[..|es| - 1])
  {
    var init := es[..|es| - 1];
    forall i: nat, j: nat | i < j < |init| ensures Differ(init, i, j) { assert Differ(es, i, j); }
  }

  lemma {:induction false} DroppedFromInit(es: seq<Entry>, k: nat)
    requires k < |es|
    ensures var init := es[..|es| - 1];
      es[..k] + es[k + 1..] == if k == |init| then init else init[..k] + init[k + 1..] + [es[|es| - 1]]
  {
  }

  lemma {:induction false} WithoutMissing(es: seq<Entry>, name: Name)
    requires forall i :: 0 <= i < |es| ==> es[i].name != name
    ensures Without(es, name) == es
  {
    if es == [] {
    } else {
      WithoutMissing(es[..|es| - 1], name);
    }
  }

  datatype Op = Add(name: Name, id: Id, pad: Pad) | Del(name: Name)

  ghost function Apply(es: seq<Entry>, op: Op): seq<Entry> {
    match op
    case Add(name, id, pad) => if HasName(es, name) then es else es + [Entry(id, pad, name)]
    case Del(name) => Without(es, name)
  }

  ghost function ApplyAll(ops: seq<Op>): seq<Entry> {
    if ops == [] then [] else Apply(ApplyAll(ops[..|ops| - 1]), ops[|ops| - 1])
  }

  lemma {:induction false} AddKeepsDistinct(es: seq<Entry>, e: Entry)
    requires DistinctNames(es)
    ensures !HasName(es, e.name) ==> DistinctNames(es + [e])
  {
    if !HasName(es, e.name) {
      forall i: nat, j: nat | i < j < |es + [e]| ensures Differ(es + [e], i, j) {
        assert j < |es| ==> Differ(es, i, j);
        assert j == |es| && es[i].name == e.name ==> Named(es, i, e.name);
      }
    }
  }

  lemma {:induction false} DropKeepsDistinct(es: seq<Entry>, k: nat)
    requires DistinctNames(es) && k < |es|
    ensures DistinctNames(es[..k] + es[k + 1..])
    ensures !HasName(es[..k] + es[k + 1..], es[k].name)
  {
    var rest := es[..k] + es[k + 1..];
    forall i: nat, j: nat | i < j < |rest| ensures Differ(rest, i, j) {
      assert Differ(es, if i < k then i else i + 1, if j < k then j else j + 1);
    }
    forall i | 0 <= i < |rest| ensures !Named(rest, i, es[k].name) {
      assert if i < k then Differ(es, i, k) else Differ(es, k, i + 1);
    }
  }

  lemma {:induction false} ApplyKeepsDistinct(es: seq<Entry>, op: Op)
    requires DistinctNames(es)
    ensures DistinctNames(Apply(es, op))
    ensures op.Del? ==> !HasName(Apply(es, op), op.name)
    ensures op.Add? && !HasName(es, op.name) ==>
      Named(Apply(es, op), |es|, op.name) && Apply(es, op)[|es|].id == op.id
  {
    if op.Add? {
      AddKeepsDistinct(es, Entry(op.id, op.pad, op.name));
    } else if HasName(es, op.name) {
      var k :| Named(es, k, op.name);
      WithoutDeletesOne(es, k);
      DropKeepsDistinct(es, k);
    } else {
      MissingStays(es, op.name);
    }
  }

  /** The list after any run of appends and removals has distinct names, and its bytes scan back to it. */
  lemma {:induction false} RunsStayParsable(ops: seq<Op>)
    ensures DistinctNames(ApplyAll(ops))
    ensures Parse(Encode(ApplyAll(ops)), 0) == Some(ApplyAll(ops))
  {
    var es := ApplyAll(ops);
    if ops == [] {
    } else {
      RunsStayParsable(ops[..|ops| - 1]);
      ApplyKeepsDistinct(ApplyAll(ops[..|ops| - 1]), ops[|ops| - 1]);
    }
    assert es[..0] == [] && es[0..] == es;
    ParseEncode(es, 0);
  }

  /** The removal whose new length is computed below zero. */
  predicate Overruns(data: seq<Byte>, op: Op) { op.Del? && |data| < HEAD + |op.name| }

  /** Removing a name that is there never does. */
  lemma {:induction false} PresentNeverOverruns(es: seq<Entry>, op: Op)
    requires HasName(es, op.name)
    ensures !Overruns(Encode(es), op)
  {
    LaterWouldFit(es, 0, op.name);
    assert es[..0] == [];
  }

  /**
   One change to the bytes of a directory. A name that is taken and a name that is missing leave
   them as they are. Nothing is said about a removal that overruns.
   */
  method Change(data: seq<Byte>, op: Op, ghost es: seq<Entry>) returns (overrun: bool, data': seq<Byte>)
    requires data == Encode(es) && DistinctNames(es)
    ensures overrun <==> Overruns(data, op)
    ensures HasName(es, op.name) ==> !overrun
    ensures !overrun ==> data' == Encode(Apply(es, op)) && DistinctNames(Apply(es, op))
    ensures !overrun && op.Add? && HasName(es, op.name) ==> data' == data
    ensures !overrun && op.Del? && !HasName(es, op.name) ==> data' == data
  {
    ApplyKeepsDistinct(es, op);
    if HasName(es, op.name) { PresentNeverOverruns(es, op); }
    overrun, data' := false, data;
    match op {
      case Add(name, id, pad) =>
        var r := Append(data, name, id, pad, es);
        if r.Appended? { data' := r.data; }
      case Del(name) =>
        var r := Remove(data, name, es);
        overrun := r.Overrun?;
        if r.Removed? {
          data' := r.data;
        } else {
          MissingStays(es, name);
        }
    }
  }

  lemma {:induction false} MissingStays(es: seq<Entry>, name: Name)
    requires !HasName(es, name)
    ensures Without(es, name) == es
  {
    assert forall i :: 0 <= i < |es| && es[i].name == name ==> Named(es, i, name);
    WithoutMissing(es, name);
  }

  /** Operation k of a run overruns the directory that the operations before it leave. */
  ghost predicate OverrunsAt(ops: seq<Op>, k: nat) {
    k < |ops| && Overruns(Encode(ApplyAll(ops[..k])), ops[k])
  }

  /**
   Any run of appends and removals on the bytes of an empty directory. It overruns exactly when
   some removal names an entry longer than the directory is then, which is never one that is
   there. Otherwise the bytes are the encoding of the list the run stands for, scan back to
   exactly that list, and its names are distinct.
   */
  method ChangeAll(ops: seq<Op>) returns (overrun: bool, data: seq<Byte>)
    ensures overrun <==> exists k :: OverrunsAt(ops, k)
    ensures !overrun ==> data == Encode(ApplyAll(ops)) && DistinctNames(ApplyAll(ops))
    ensures !overrun ==> Parse(data, 0) == Some(ApplyAll(ops))
  {
    data := [];
    assert ops[..0] == [];
    for k := 0 to |ops|
      invariant data == Encode(ApplyAll(ops[..k])) && DistinctNames(ApplyAll(ops[..k]))
      invariant forall j: nat :: j < k ==> !OverrunsAt(ops, j)
    {
      assert ops[..k + 1][..k] == ops[..k];
      overrun, data := Change(data, ops[k], ApplyAll(ops[..k]));
      assert overrun <==> OverrunsAt(ops, k);
      if overrun { return; }
    }
    assert ops[..|ops|] == ops;
    RunsStayParsable(ops);
    overrun := false;
  }

  /** Resolving a name right after it was appended gives the id it was appended with. */
  method AppendThenFind(data: seq<Byte>, name: Name, id: Id, pad: Pad, ghost es: seq<Entry>)
    returns (r: AppendResult, found: Option<Id>)
    requires data == Encode(es) && DistinctNames(es)
    ensures r.Exists? <==> HasName(es, name)
    ensures r.Appended? ==> found == Some(id)
    ensures r.Exists? ==> exists i :: Named(es, i, name) && found == Some(es[i].id)
  {
    r := Append(data, name, id, pad, es);
    ghost var e := Entry(id, pad, name);
    if r.Appended? {
      found := Find(r.data, name, es + [e]);
      OnlyNamed(es, e);
    } else {
      found := Find(data, name, es);
    }
  }

  lemma {:induction false} OnlyNamed(es: seq<Entry>, e: Entry)
    requires !HasName(es, e.name)
    ensures Named(es + [e], |es|, e.name)
    ensures forall i :: Named(es + [e], i, e.name) ==> i == |es|
  {
    forall i | Named(es + [e], i, e.name) ensures i == |es| {
      assert i < |es| ==> Named(es, i, e.name);
    }
  }

  /** Resolving a name right after it was removed finds nothing, and every other name as before. */
  method RemoveThenFind(data: seq<Byte>, name: Name, other: Name, ghost es: seq<Entry>)
    returns (r: RemoveResult, found: Option<Id>, kept: Option<Id>)
    requires data == Encode(es) && DistinctNames(es)
    ensures r.Removed? <==> HasName(es, name)
    ensures r.Removed? ==> found == None
    ensures r.Removed? && other != name ==>
      (kept.Some? <==> HasName(es, other)) && (kept.Some? ==> exists i :: Named(es, i, other) && kept == Some(es[i].id))
  {
    found, kept := None, None;
    r := Remove(data, name, es);
    if r.Removed? {
      ghost var rest := Without(es, name);
      found := Find(r.data, name, rest);
      kept := Find(r.data, other, rest);
      WithoutKeepsOthers(es, name, other);
    }
  }

  lemma {:induction false} WithoutKeepsOthers(es: seq<Entry>, name: Name, other: Name)
    requires DistinctNames(es) && HasName(es, name)
    ensures !HasName(Without(es, name), name)
    ensures other != name ==> forall j :: Named(Without(es, name), j, other) ==>
      exists i :: Named(es, i, other) && es[i].id == Without(es, name)[j].id
    ensures other != name && HasName(es, other) ==> HasName(Without(es, name), other)
  {
    var k :| Named(es, k, name);
    WithoutDeletesOne(es, k);
    DropKeepsDistinct(es, k);
    var rest := Without(es, name);
    forall j | Named(rest, j, other)
      ensures exists i :: Named(es, i, other) && es[i].id == rest[j].id
    {
      assert Named(es, if j < k then j else j + 1, other);
    }
    if other != name && HasName(es, other) {
      var i :| Named(es, i, other);
      assert Named(rest, if i < k then i else i - 1, other);
    }
  }

  /** A new directory holds "." and ".." in 35 bytes: too short to look for a missing name of 20. */
  lemma {:induction false} FreshDirectoryIsShort(self: Entry, parent: Entry, name: Name)
    requires self.name == [46] && parent.name == [46, 46] && |name| == 20
    ensures DistinctNames([self, parent])
    ensures !HasName([self, parent], name)
    ensures |Encode([self, parent])| == 35 < HEAD + |name|
  {
    assert [self, parent][..1] == [self] && [self][..0] == [];
    assert Encode([self]) == EntryBytes(self);
    assert Encode([self, parent]) == Encode([self]) + EntryBytes(parent);
  }
}
