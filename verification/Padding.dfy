/**
 Shifting a word stream up by a few byte lanes and back down: the two padding loops over
 streams of any length. A lane is a data byte with its keep bit.
 */
module Padding {
  import opened Basics

  datatype Lane = Lane(data: Byte, keep: bool)
  datatype Word = Word(lanes: seq<Lane>, last: bool)

  function Zeros(n: nat): (r: seq<Lane>)
    ensures |r| == n
  {
    seq(n, i => Lane(0, false))
  }

  /** Words of the given width. */
  ghost predicate Wide(s: seq<Word>, width: nat) { forall i :: 0 <= i < |s| ==> |s[i].lanes| == width }

  /** No word but the final one is flagged last, and that one exactly when the packet is complete. */
  ghost predicate Flagged(s: seq<Word>, complete: bool) {
    forall i :: 0 <= i < |s| ==> (s[i].last <==> complete && i == |s| - 1)
  }

  /** One packet: the last flag is on the final word and only there. */
  ghost predicate Packet(s: seq<Word>) {
    s != [] && Flagged(s, true)
  }

  function Flat(s: seq<Word>): seq<Lane> {
    if s == [] then [] else Flat(s[..|s| - 1]) + s[|s| - 1].lanes
  }

  /** The bytes whose keep bit is set, in order. */
  function Kept(ls: seq<Lane>): seq<Byte> {
    if ls == [] then []
    else Kept(ls[..|ls| - 1]) + if ls[|ls| - 1].keep then [ls[|ls| - 1].data] else []
  }

  /** keep != 0 */
  predicate AnyKept(ls: seq<Lane>) { Kept(ls) != [] }

  lemma {:induction false} KeptConcat(a: seq<Lane>, b: seq<Lane>)
    ensures Kept(a + b) == Kept(a) + Kept(b)
  {
    if b == [] {
      assert a + b == a;
    } else {
      KeptConcat(a, b[..|b| - 1]);
      assert (a + b)[..|a + b| - 1] == a + b[..|b| - 1];
    }
  }

  lemma {:induction false} ZerosKeepNothing(n: nat)
    ensures Kept(Zeros(n)) == []
  {
    if n == 0 {
    } else {
      ZerosKeepNothing(n - 1);
      assert Zeros(n)[..n - 1] == Zeros(n - 1);
    }
  }

  lemma {:induction false} FlatSnoc(s: seq<Word>, w: Word)
    ensures Flat(s + [w]) == Flat(s) + w.lanes
  {
    assert (s + [w])[..|s|] == s;
  }

  lemma {:induction false} Appended(s: seq<Word>, w: Word, width: nat)
    requires Wide(s, width) && |w.lanes| == width && Flagged(s, false)
    ensures Wide(s + [w], width) && Flagged(s + [w], w.last)
  {
  }

  /** The lanes the shift pushes out of the final word. */
  function Leaving(s: seq<Word>, width: nat, pad: nat): seq<Lane>
    requires pad <= width && Wide(s, width) && Packet(s)
  {
    s[|s| - 1].lanes[width - pad..]
  }

  /** Lane for lane, everything moves up by the padding; the lanes that leave are dropped if none is kept. */
  ghost predicate Raises(s: seq<Word>, out: seq<Word>, width: nat, pad: nat) {
    && pad <= width && Wide(s, width) && Packet(s)
    && if AnyKept(Leaving(s, width, pad)) then Flat(out) == Zeros(pad) + Flat(s) + Zeros(width - pad)
       else Flat(out) + Leaving(s, width, pad) == Zeros(pad) + Flat(s)
  }

  /**
   insert_padding<pad>: every lane moves up by pad; the lanes that leave a word are carried
   into the next one, and a word is added for them if one of them is kept.
   */
  method InsertPadding(s: seq<Word>, width: nat, pad: nat) returns (out: seq<Word>)
    requires 0 < pad < width && Wide(s, width) && Packet(s)
    ensures Wide(out, width) && Packet(out)
    ensures out[0].lanes == Zeros(pad) + s[0].lanes[..width - pad]
    ensures |out| == |s| + if AnyKept(Leaving(s, width, pad)) then 1 else 0
    ensures Raises(s, out, width, pad)
    ensures Kept(Flat(out)) == Kept(Flat(s))
  {
    out := [];
    var carry, i, last := Zeros(pad), 0, false;
    ghost var first := carry + s[0].lanes[..width - pad];
    while !last
      invariant 0 <= i <= |s| && |carry| == pad && Wide(out, width) && |out| == i
      invariant last <==> i == |s|
      invariant Raised(s, i, out, carry, pad)
      invariant i > 0 ==> out[0].lanes == first
      invariant Flagged(out, last && !AnyKept(carry))
      invariant carry == if i == 0 then Zeros(pad) else s[i - 1].lanes[width - pad..]
      decreases |s| - i
    {
      var element := s[i];
      var next := element.lanes[width - pad..];
      var word := Word(carry + element.lanes[..width - pad], element.last && !AnyKept(next));
      Shifted(s, i, out, word, carry, next, width, pad);
      Appended(out, word, width);
      out := out + [word];
      carry, last, i := next, element.last, i + 1;
    }
    Carried(s, out, carry, width, pad);
    if AnyKept(carry) {
      Appended(out, Word(carry + Zeros(width - pad), true), width);
      out := out + [Word(carry + Zeros(width - pad), true)];
    }
  }

  /** What is written so far and what is carried are the lanes read so far, after the padding. */
  ghost predicate Raised(s: seq<Word>, i: nat, out: seq<Word>, carry: seq<Lane>, pad: nat)
    requires i <= |s|
  {
    Flat(out) + carry == Zeros(pad) + Flat(s[..i])
  }

  lemma {:induction false} Shifted(s: seq<Word>, i: nat, out: seq<Word>, word: Word, carry: seq<Lane>, next: seq<Lane>,
                                   width: nat, pad: nat)
    requires i < |s| && pad < width == |s[i].lanes| && Raised(s, i, out, carry, pad)
    requires word.lanes == carry + s[i].lanes[..width - pad] && next == s[i].lanes[width - pad..]
    ensures Raised(s, i + 1, out + [word], next, pad)
  {
    FlatSnoc(out, word);
    assert s[..i + 1] == s[..i] + [s[i]];
    FlatSnoc(s[..i], s[i]);
    var low := s[i].lanes[..width - pad];
    assert s[i].lanes == low + next;
    assert (Flat(out) + (carry + low)) + next == (Flat(out) + carry) + (low + next);
    assert (Zeros(pad) + Flat(s[..i])) + s[i].lanes == Zeros(pad) + (Flat(s[..i]) + s[i].lanes);
  }

  /** Nothing kept is lost: either the carried lanes get a word of their own or they keep nothing. */
  lemma {:induction false} Carried(s: seq<Word>, out: seq<Word>, carry: seq<Lane>, width: nat, pad: nat)
    requires pad < width && |carry| == pad && Raised(s, |s|, out, carry, pad)
    ensures var more := out + [Word(carry + Zeros(width - pad), true)];
            Flat(more) == Zeros(pad) + Flat(s) + Zeros(width - pad) && Kept(Flat(more)) == Kept(Flat(s))
    ensures Flat(out) + carry == Zeros(pad) + Flat(s)
    ensures !AnyKept(carry) ==> Kept(Flat(out)) == Kept(Flat(s))
  {
    assert s[..|s|] == s;
    var flat := Flat(s);
    FlatSnoc(out, Word(carry + Zeros(width - pad), true));
    assert Flat(out) + (carry + Zeros(width - pad)) == (Flat(out) + carry) + Zeros(width - pad);
    KeptConcat(Flat(out), carry);
    KeptConcat(Zeros(pad), flat);
    KeptConcat(Zeros(pad) + flat, Zeros(width - pad));
    ZerosKeepNothing(pad);
    ZerosKeepNothing(width - pad);
  }

  /** The whole stream is one word with nothing kept above the padding. */
  predicate OnlyPadding(s: seq<Word>, pad: nat) {
    |s| == 1 && pad <= |s[0].lanes| && !AnyKept(s[0].lanes[pad..])
  }

  /**
   remove_padding<pad>: every lane moves down by pad. The previous word is not initialised
   before the first one is read; `garbage` stands for what it holds.
   */
  method RemovePadding(s: seq<Word>, width: nat, pad: nat, garbage: seq<Lane>) returns (out: seq<Word>)
    requires 0 < pad < width && Wide(s, width) && Packet(s) && |garbage| == width
    ensures Wide(out, width) && Packet(out)
    ensures Removed(s, out, pad, garbage)
  {
    out := [];
    var previous, i, last := garbage, 0, false;
    while !last
      invariant 0 <= i <= |s| && |previous| == width && Wide(out, width)
      invariant last <==> i == |s|
      invariant if i == 0 then out == [] && previous == garbage else previous == s[i - 1].lanes
      invariant !last ==> Lowered(s, i, out, previous, pad) && Flagged(out, false)
      invariant last ==> Packet(out) && Removed(s, out, pad, garbage)
      decreases |s| - i
    {
      out := LowerWord(s, i, previous, out, width, pad, garbage);
      previous, last, i := s[i].lanes, s[i].last, i + 1;
    }
  }

  /** One round of the loop: word i is combined with the one before it, and the last one is flushed. */
  method LowerWord(
      s: seq<Word>, i: nat, previous: seq<Lane>, before: seq<Word>, width: nat, pad: nat, ghost garbage: seq<Lane>)
    returns (out: seq<Word>)
    requires 0 < pad < width == |previous| == |garbage| && Wide(s, width) && Packet(s) && i < |s|
    requires Wide(before, width) && Flagged(before, false) && Lowered(s, i, before, previous, pad)
    requires i == 0 ==> previous == garbage
    ensures Wide(out, width)
    ensures i < |s| - 1 ==> Flagged(out, false) && Lowered(s, i + 1, out, s[i].lanes, pad)
    ensures i == |s| - 1 ==> Packet(out) && Removed(s, out, pad, garbage)
  {
    var current, valid := s[i], i > 0;   // previous_element_valid
    var word := Word(previous[pad..] + current.lanes[..pad], current.last && !AnyKept(current.lanes[pad..]));
    LowerOne(s, i, before, previous, word, width, pad);
    Appended(before, word, width);
    out := if valid || word.last then before + [word] else before;
    if current.last && !word.last {
      // flush the remaining lanes
      LowerFlush(s, out, width, pad, garbage);
      Appended(out, Word(current.lanes[pad..] + Zeros(pad), true), width);
      out := out + [Word(current.lanes[pad..] + Zeros(pad), true)];
    } else if current.last && valid {
      LowerDone(s, out, width, pad, garbage);
    } else if current.last {
      FlatFirst(s);
    }
  }

  /**
   Lane for lane, everything moves down by the padding. The lanes above it in the final word are
   flushed into a word of their own if one of them is kept, and dropped otherwise. But a single
   word with nothing kept above the padding is preceded by what the register held.
   */
  ghost predicate Removed(s: seq<Word>, out: seq<Word>, pad: nat, garbage: seq<Lane>) {
    && s != [] && pad <= |garbage| && pad <= |s[0].lanes| && pad <= |s[|s| - 1].lanes| && pad <= |Flat(s)|
    && if OnlyPadding(s, pad) then out == [Word(garbage[pad..] + s[0].lanes[..pad], true)]
       else if AnyKept(s[|s| - 1].lanes[pad..]) then Flat(out) == Flat(s)[pad..] + Zeros(pad)
       else Flat(out) + s[|s| - 1].lanes[pad..] == Flat(s)[pad..]
  }

  /** So the kept bytes are those above the padding. */
  lemma {:induction false} RemovedKeeps(s: seq<Word>, out: seq<Word>, pad: nat, garbage: seq<Lane>)
    requires Removed(s, out, pad, garbage) && !OnlyPadding(s, pad)
    ensures Kept(Flat(out)) == Kept(Flat(s)[pad..])
  {
    var high := s[|s| - 1].lanes[pad..];
    if AnyKept(high) {
      KeptConcat(Flat(s)[pad..], Zeros(pad));
      ZerosKeepNothing(pad);
    } else {
      KeptConcat(Flat(out), high);
    }
  }

  /** What is written so far and what the previous word still holds are the lanes read so far, less the padding. */
  ghost predicate Lowered(s: seq<Word>, i: nat, out: seq<Word>, previous: seq<Lane>, pad: nat)
    requires i <= |s| && pad <= |previous|
  {
    if i == 0 then out == []
    else |Flat(s[..i])| >= pad && Flat(out) + previous[pad..] == Flat(s[..i])[pad..]
  }

  lemma {:induction false} LowerOne(
      s: seq<Word>, i: nat, out: seq<Word>, previous: seq<Lane>, word: Word, width: nat, pad: nat)
    requires i < |s| && Wide(s, width) && pad < width == |previous| && Lowered(s, i, out, previous, pad)
    requires word.lanes == previous[pad..] + s[i].lanes[..pad]
    ensures Lowered(s, i + 1, if i > 0 then out + [word] else out, s[i].lanes, pad)
    ensures s[..|s|] == s
  {
    assert s[..i + 1] == s[..i] + [s[i]];
    FlatSnoc(s[..i], s[i]);
    var ls := s[i].lanes;
    assert ls[..pad] + ls[pad..] == ls;
    if i > 0 {
      FlatSnoc(out, word);
      assert (Flat(s[..i]) + ls)[pad..] == Flat(s[..i])[pad..] + ls;
    }
  }

  lemma {:induction false} LowerFlush(s: seq<Word>, out: seq<Word>, width: nat, pad: nat, garbage: seq<Lane>)
    requires s != [] && Wide(s, width) && pad <= width == |garbage| && AnyKept(s[|s| - 1].lanes[pad..])
    requires Lowered(s, |s|, out, s[|s| - 1].lanes, pad)
    ensures Removed(s, out + [Word(s[|s| - 1].lanes[pad..] + Zeros(pad), true)], pad, garbage)
  {
    var high := s[|s| - 1].lanes[pad..];
    assert s[..|s|] == s;
    FlatSnoc(out, Word(high + Zeros(pad), true));
    assert Flat(out) + (high + Zeros(pad)) == (Flat(out) + high) + Zeros(pad);
  }

  lemma {:induction false} LowerDone(s: seq<Word>, out: seq<Word>, width: nat, pad: nat, garbage: seq<Lane>)
    requires |s| > 1 && Wide(s, width) && pad <= width == |garbage| && !AnyKept(s[|s| - 1].lanes[pad..])
    requires Lowered(s, |s|, out, s[|s| - 1].lanes, pad)
    ensures Removed(s, out, pad, garbage)
  {
    assert s[..|s|] == s;
  }

  // ---- There and back ---------------------------------------------------------------------

  lemma {:induction false} FlatFirst(s: seq<Word>)
    requires s != []
    ensures s[0].lanes <= Flat(s)
  {
    if |s| > 1 {
      FlatFirst(s[..|s| - 1]);
    } else {
      assert s[..0] == [];
    }
  }

  /** A stream of one word that keeps nothing. */
  predicate Empty(s: seq<Word>) { |s| == 1 && !AnyKept(s[0].lanes) }

  /** What comes back, lane for lane, of a stream that is not empty. */
  ghost predicate Restored(s: seq<Word>, out: seq<Word>, width: nat, pad: nat) {
    && 0 < pad < width && Wide(s, width) && Packet(s)
    && if AnyKept(Leaving(s, width, pad)) then out == s
       else if AnyKept(s[|s| - 1].lanes[..width - pad]) then Flat(out) == Flat(s)[..|Flat(s)| - pad] + Zeros(pad)
       else Flat(out) == Flat(s[..|s| - 1])
  }

  /**
   Removing what was inserted restores the stream: word for word if one of the last `pad` lanes
   is kept; with those lanes cleared if only others of the final word are kept; and without the
   final word if it keeps nothing. The kept bytes are always the same, except for a single word
   that keeps nothing: there the result is what the uninitialised register held.
   */
  method InsertThenRemove(s: seq<Word>, width: nat, pad: nat, garbage: seq<Lane>) returns (out: seq<Word>)
    requires 0 < pad < width && Wide(s, width) && Packet(s) && |garbage| == width
    ensures Wide(out, width) && Packet(out)
    ensures !Empty(s) ==> Restored(s, out, width, pad)
    ensures Kept(Flat(out)) == Kept(Flat(s)) <==> !Empty(s) || !AnyKept(garbage[pad..])
    ensures Empty(s) ==> Kept(Flat(s)) == [] && Kept(Flat(out)) == Kept(garbage[pad..])
  {
    var padded := InsertPadding(s, width, pad);
    out := RemovePadding(padded, width, pad, garbage);
    OnlyPaddingIff(s, padded, width, pad);
    if Empty(s) {
      LeakedBytes(s, padded, out, width, pad, garbage);
    } else {
      RemovedKeeps(padded, out, pad, garbage);
      PaddingInFront(padded, pad);
      ThereAndBack(s, padded, out, width, pad, garbage);
    }
  }

  lemma {:induction false} ThereAndBack(
      s: seq<Word>, padded: seq<Word>, out: seq<Word>, width: nat, pad: nat, garbage: seq<Lane>)
    requires 0 < pad < width && Wide(s, width) && Packet(s) && Wide(padded, width) && padded != []
    requires Wide(out, width) && Packet(out) && !OnlyPadding(padded, pad)
    requires Removed(padded, out, pad, garbage) && Raises(s, padded, width, pad)
    ensures Restored(s, out, width, pad)
  {
    LastWord(s);
    if AnyKept(Leaving(s, width, pad)) {
      FullCarry(s, padded, width, pad);
      ZerosKeepNothing(width - pad);
      CutTail(Flat(out), Flat(s), Zeros(width - pad));
      SameFlat(s, out, width);
    } else {
      var init, low := Flat(s[..|s| - 1]), s[|s| - 1].lanes[..width - pad];
      EmptyCarry(s, padded, width, pad);
      if !AnyKept(low) { CutTail(Flat(out), init, low); }
    }
  }

  lemma {:induction false} CutTail(a: seq<Lane>, b: seq<Lane>, c: seq<Lane>)
    requires a + c == b + c
    ensures a == b
  {
    assert |a| == |b|;
    assert a == (a + c)[..|a|] && b == (b + c)[..|a|];
  }

  lemma {:induction false} LastWord(s: seq<Word>)
    requires s != []
    ensures Flat(s) == Flat(s[..|s| - 1]) + s[|s| - 1].lanes
  {
  }

  /** The final word of a raised stream if a word was added, and what is above the padding. */
  lemma {:induction false} FullCarry(s: seq<Word>, padded: seq<Word>, width: nat, pad: nat)
    requires 0 < pad < width && Raises(s, padded, width, pad) && Wide(padded, width) && padded != []
    requires AnyKept(Leaving(s, width, pad))
    ensures padded[|padded| - 1].lanes[pad..] == Zeros(width - pad)
    ensures Flat(padded)[pad..] == Flat(s) + Zeros(width - pad)
  {
    LastWord(padded);
    Suffix(Flat(padded[..|padded| - 1]), padded[|padded| - 1].lanes, Zeros(pad) + Flat(s), Zeros(width - pad));
    assert (Zeros(pad) + Flat(s) + Zeros(width - pad))[pad..] == Flat(s) + Zeros(width - pad);
  }

  /** The same if the lanes that leave were dropped. */
  lemma {:induction false} EmptyCarry(s: seq<Word>, padded: seq<Word>, width: nat, pad: nat)
    requires 0 < pad < width && Raises(s, padded, width, pad) && Wide(padded, width) && padded != []
    requires !AnyKept(Leaving(s, width, pad))
    ensures |Flat(s)| >= width && |Flat(padded)| >= pad
    ensures padded[|padded| - 1].lanes[pad..] == s[|s| - 1].lanes[..width - pad]
    ensures Flat(padded)[pad..] == Flat(s)[..|Flat(s)| - pad]
    ensures Flat(padded)[pad..] == Flat(s[..|s| - 1]) + s[|s| - 1].lanes[..width - pad]
  {
    LastWord(padded);
    LastWord(s);
    var init, ls := Flat(s[..|s| - 1]), s[|s| - 1].lanes;
    var low, lead := ls[..width - pad], ls[width - pad..];
    assert ls == low + lead;
    DropTail(Flat(padded), Zeros(pad), init, low, lead);
    Suffix(Flat(padded[..|padded| - 1]), padded[|padded| - 1].lanes, Zeros(pad) + init, low);
  }

  lemma {:induction false} DropTail(a: seq<Lane>, front: seq<Lane>, b: seq<Lane>, c: seq<Lane>, tail: seq<Lane>)
    requires a + tail == front + (b + (c + tail))
    ensures a == front + b + c
    ensures a[|front|..] == b + c == (b + (c + tail))[..|b| + |c|]
  {
    assert front + (b + (c + tail)) == (front + b + c) + tail;
    CutTail(a, front + b + c, tail);
  }

  lemma {:induction false} Suffix(a: seq<Lane>, b: seq<Lane>, c: seq<Lane>, d: seq<Lane>)
    requires a + b == c + d && |d| <= |b|
    ensures b[|b| - |d|..] == d
  {
    assert b[|b| - |d|..] == (a + b)[|a| + |b| - |d|..];
    assert d == (c + d)[|c|..];
  }

  lemma {:induction false} FlatLength(s: seq<Word>, width: nat)
    requires Wide(s, width)
    ensures |Flat(s)| == |s| * width
  {
    if s == [] {
    } else {
      var n := |s| - 1;
      FlatLength(s[..n], width);
      OneMore(n, width);
    }
  }

  lemma {:induction false} OneMore(n: nat, width: nat)
    ensures n * width + width == (n + 1) * width
  {
  }

  /** Streams of one width with the same lanes and one last flag each are the same. */
  lemma {:induction false} SameFlat(s: seq<Word>, out: seq<Word>, width: nat)
    requires width > 0 && Wide(s, width) && Wide(out, width) && Flat(s) == Flat(out)
    requires Flagged(s, true) && Flagged(out, true)
    ensures s == out
  {
    FlatLength(s, width);
    FlatLength(out, width);
    SameLanes(s, out, width);
  }

  lemma {:induction false} SameLanes(s: seq<Word>, out: seq<Word>, width: nat)
    requires Wide(s, width) && Wide(out, width) && Flat(s) == Flat(out) && |s| == |out|
    ensures forall i :: 0 <= i < |s| ==> s[i].lanes == out[i].lanes
  {
    if s == [] {
    } else {
      var m := |s| - 1;
      FlatLength(s[..m], width);
      FlatLength(out[..m], width);
      var a, b := Flat(s[..m]), Flat(out[..m]);
      assert a == (a + s[m].lanes)[..|a|] && b == (b + out[m].lanes)[..|b|];
      assert s[m].lanes == (a + s[m].lanes)[|a|..] && out[m].lanes == (b + out[m].lanes)[|b|..];
      SameLanes(s[..m], out[..m], width);
    }
  }

  lemma {:induction false} PaddingInFront(padded: seq<Word>, pad: nat)
    requires padded != [] && pad <= |padded[0].lanes| && padded[0].lanes[..pad] == Zeros(pad)
    ensures |Flat(padded)| >= pad
    ensures Kept(Flat(padded)[pad..]) == Kept(Flat(padded))
  {
    FlatFirst(padded);
    FrontKeepsNothing(Flat(padded), padded[0].lanes, pad);
  }

  lemma {:induction false} FrontKeepsNothing(flat: seq<Lane>, first: seq<Lane>, pad: nat)
    requires first <= flat && pad <= |first| && first[..pad] == Zeros(pad)
    ensures Kept(flat[pad..]) == Kept(flat)
  {
    assert flat[..pad] == first[..pad];
    assert flat == flat[..pad] + flat[pad..];
    KeptConcat(flat[..pad], flat[pad..]);
    ZerosKeepNothing(pad);
  }

  lemma {:induction false} OnlyPaddingIff(s: seq<Word>, padded: seq<Word>, width: nat, pad: nat)
    requires 0 < pad < width && Wide(s, width) && Packet(s)
    requires |padded| == |s| + if AnyKept(Leaving(s, width, pad)) then 1 else 0
    requires padded[0].lanes == Zeros(pad) + s[0].lanes[..width - pad]
    ensures OnlyPadding(padded, pad) <==> Empty(s)
  {
    assert padded[0].lanes[pad..] == s[0].lanes[..width - pad];
    var low, high := s[0].lanes[..width - pad], s[0].lanes[width - pad..];
    assert s[0].lanes == low + high;
    KeptConcat(low, high);
  }

  lemma {:induction false} LeakedBytes(
      s: seq<Word>, padded: seq<Word>, out: seq<Word>, width: nat, pad: nat, garbage: seq<Lane>)
    requires 0 < pad < width && Wide(s, width) && |garbage| == width && Empty(s) && padded != []
    requires padded[0].lanes == Zeros(pad) + s[0].lanes[..width - pad]
    requires out == [Word(garbage[pad..] + padded[0].lanes[..pad], true)]
    ensures Kept(Flat(s)) == []
    ensures Kept(Flat(out)) == Kept(garbage[pad..])
  {
    assert s[..0] == [] && Flat(s) == s[0].lanes;
    assert out[..0] == [] && padded[0].lanes[..pad] == Zeros(pad);
    assert Flat(out) == garbage[pad..] + Zeros(pad);
    KeptConcat(garbage[pad..], Zeros(pad));
    ZerosKeepNothing(pad);
  }

  /** For example, a byte that appears from nowhere. */
  method EmptyWordLeaksGarbage() returns (out: seq<Word>)
    ensures Kept(Flat(out)) == [7]
  {
    var s, garbage := [Word([Lane(0, false), Lane(0, false)], true)], [Lane(0, false), Lane(7, true)];
    out := InsertThenRemove(s, 2, 1, garbage);
    var leak := [Lane(7, true)];
    assert garbage[1..] == leak && leak[..0] == [] && Kept(leak) == [7];
    assert s[0].lanes[..1][..0] == [] && !AnyKept(s[0].lanes[..1]) && !AnyKept(s[0].lanes);
  }
}
