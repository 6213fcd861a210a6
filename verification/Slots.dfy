/** The slots of a page: a bitmap in the header that says which slots are used, and what
    the used slots hold, in order, without the gaps. */
module Slots {
  import opened Pages

  // ------------------------------------------------------------------ the header bits

  function HasBit(b: bv8, i: nat): bool
    requires i < 8
  {
    b & (1 << i) != 0
  }

  /** isSlotUsed: bit i % 8 of byte i / 8. */
  function IsSlotUsed(header: seq<bv8>, i: nat): bool
    requires i / 8 < |header|
  {
    HasBit(header[i / 8], i % 8)
  }

  /** The bit of a slot, as shifting the byte gives it. */
  lemma SlotBit(header: seq<bv8>, i: nat)
    requires i / 8 < |header|
    ensures IsSlotUsed(header, i) <==> (header[i / 8] >> (i % 8)) & 1 == 1
  {
    ShiftedBit(header[i / 8], i % 8);
  }

  lemma ShiftedBit(b: bv8, i: nat)
    requires i < 8
    ensures HasBit(b, i) <==> (b >> i) & 1 == 1
  {
  }

  lemma BitChanged(b: bv8, i: nat, j: nat, value: bool)
    requires i < 8 && j < 8
    ensures HasBit(WithBit(b, i, value), j) <==> if i == j then value else HasBit(b, j)
  {
    hide HasBit;
    if value {
      BitSet(b, i, j);
    } else {
      BitCleared(b, i, j);
    }
  }

  lemma BitSet(b: bv8, i: nat, j: nat)
    requires i < 8 && j < 8
    ensures HasBit(b | (1 << i), j) <==> i == j || HasBit(b, j)
  {
  }

  lemma BitCleared(b: bv8, i: nat, j: nat)
    requires i < 8 && j < 8
    ensures HasBit(b & (0xFF ^ (1 << i)), j) <==> i != j && HasBit(b, j)
  {
  }

  /** The bit of slot i was written, and no other changed. */
  ghost predicate BitWritten(before: seq<bv8>, after: seq<bv8>, i: nat, value: bool) {
    && |after| == |before|
    && forall j: nat :: j / 8 < |after| ==> (IsSlotUsed(after, j) <==> if j == i then value else IsSlotUsed(before, j))
  }

  /** A byte with one bit set or cleared. */
  function WithBit(b: bv8, i: nat, value: bool): bv8
    requires i < 8
  {
    if value then b | (1 << i) else b & (0xFF ^ (1 << i))
  }

  /** markSlotUsed: writes the bit of slot i and no other. */
  method MarkSlotUsed(header: array<bv8>, i: nat, value: bool)
    requires i / 8 < header.Length
    modifies header
    ensures BitWritten(old(header[..]), header[..], i, value)
    ensures forall b :: 0 <= b < header.Length && b != i / 8 ==> header[b] == old(header[b])
    ensures header[i / 8] == if value then old(header[i / 8]) | (1 << (i % 8)) else old(header[i / 8]) & !(1 << (i % 8))
  {
    hide BitWritten;
    var headerbit, headerbyte := i % 8, i / 8;
    ghost var before := header[..];
    header[headerbyte] := WithBit(header[headerbyte], headerbit, value);
    BitMarked(before, header[..], i, value);
  }

  lemma BitMarked(before: seq<bv8>, after: seq<bv8>, i: nat, value: bool)
    requires i / 8 < |before| && after == before[i / 8 := WithBit(before[i / 8], i % 8, value)]
    ensures BitWritten(before, after, i, value)
  {
    hide HasBit, WithBit;
    forall j: nat | j / 8 < |after|
      ensures IsSlotUsed(after, j) <==> if j == i then value else IsSlotUsed(before, j)
    {
      BitChanged(before[i / 8], i % 8, j % 8, value);
    }
  }

  // ------------------------------------------------------------------ used slots

  /** What the used slots hold, in slot order. */
  ghost function Gather<T>(cells: seq<Option<T>>): (r: seq<T>)
    ensures |r| <= |cells|
  {
    if cells == [] then []
    else if cells[|cells| - 1].Some? then Gather(cells[..|cells| - 1]) + [cells[|cells| - 1].value]
    else Gather(cells[..|cells| - 1])
  }

  lemma {:induction false} GatherAppend<T>(a: seq<Option<T>>, b: seq<Option<T>>)
    ensures Gather(a + b) == Gather(a) + Gather(b)
  {
    if b == [] {
      assert a + b == a;
    } else {
      assert (a + b)[..|a + b| - 1] == a + b[..|b| - 1];
      GatherAppend(a, b[..|b| - 1]);
    }
  }

  /** One more cell. */
  lemma GatherNext<T>(cells: seq<Option<T>>, i: nat)
    requires i < |cells|
    ensures Gather(cells[..i + 1]) == Gather(cells[..i]) + (if cells[i].Some? then [cells[i].value] else [])
  {
    assert cells[..i + 1][..i] == cells[..i];
  }

  /** The cells before slot i, slot i itself, and those after it. */
  lemma GatherAt<T>(cells: seq<Option<T>>, i: nat)
    requires i < |cells|
    ensures Gather(cells) == Gather(cells[..i]) + (if cells[i].Some? then [cells[i].value] else []) + Gather(cells[i + 1..])
    ensures Gather(cells) == Gather(cells[..i]) + Gather(cells[i..])
  {
    assert cells == cells[..i + 1] + cells[i + 1..];
    GatherAppend(cells[..i + 1], cells[i + 1..]);
    GatherNext(cells, i);
    assert cells == cells[..i] + cells[i..];
    GatherAppend(cells[..i], cells[i..]);
  }

  /** A used slot and its place in the sequence. */
  lemma GatherPlace<T>(cells: seq<Option<T>>, i: nat)
    requires i < |cells| && cells[i].Some?
    ensures |Gather(cells[..i])| < |Gather(cells)|
    ensures Gather(cells)[|Gather(cells[..i])|] == cells[i].value
    ensures Gather(cells)[..|Gather(cells[..i])|] == Gather(cells[..i])
    ensures Gather(cells)[|Gather(cells[..i])| + 1..] == Gather(cells[i + 1..])
  {
    GatherAt(cells, i);
  }

  lemma {:induction false} GatherNone<T>(cells: seq<Option<T>>)
    requires forall i :: 0 <= i < |cells| ==> cells[i] == None
    ensures Gather(cells) == []
  {
    if cells != [] {
      GatherNone(cells[..|cells| - 1]);
    }
  }

  lemma {:induction false} GatherFull<T>(cells: seq<Option<T>>)
    requires forall i :: 0 <= i < |cells| ==> cells[i].Some?
    ensures |Gather(cells)| == |cells|
  {
    if cells != [] {
      GatherFull(cells[..|cells| - 1]);
    }
  }

  /** The used slot with a given place in the sequence, */
  lemma {:induction false} GatherSlot<T>(cells: seq<Option<T>>, index: nat) returns (i: nat)
    requires index < |Gather(cells)|
    ensures i < |cells| && cells[i] == Some(Gather(cells)[index]) && |Gather(cells[..i])| == index
  {
    var n := |cells| - 1;
    GatherNext(cells, n);
    assert cells[..n + 1] == cells;
    if index < |Gather(cells[..n])| {
      i := GatherSlot(cells[..n], index);
      assert cells[..n][..i] == cells[..i];
    } else {
      i := n;
    }
  }

  /** of which there is only one. */
  lemma GatherOneSlot<T>(cells: seq<Option<T>>, i: nat, j: nat)
    requires i < |cells| && j < |cells| && cells[i].Some? && cells[j].Some?
    requires |Gather(cells[..i])| == |Gather(cells[..j])|
    ensures i == j
  {
    if i < j {
      GatherNext(cells, i);
      GatherLonger(cells, i + 1, j);
    } else if j < i {
      GatherNext(cells, j);
      GatherLonger(cells, j + 1, i);
    }
  }

  lemma GatherLonger<T>(cells: seq<Option<T>>, i: nat, j: nat)
    requires i <= j <= |cells|
    ensures |Gather(cells[..i])| <= |Gather(cells[..j])|
  {
    assert cells[..j] == cells[..i] + cells[i..j];
    GatherAppend(cells[..i], cells[i..j]);
  }

  /** There is room exactly when some slot is unused. */
  lemma {:induction false} GatherRoom<T>(cells: seq<Option<T>>)
    ensures |Gather(cells)| < |cells| <==> exists i :: 0 <= i < |cells| && cells[i] == None
  {
    if forall i :: 0 <= i < |cells| ==> cells[i].Some? {
      GatherFull(cells);
    } else {
      var i :| 0 <= i < |cells| && cells[i] == None;
      GatherAt(cells, i);
    }
  }

  /** Unused slots do not count, from slot n on, */
  lemma GatherFrom<T>(cells: seq<Option<T>>, n: nat, i: nat)
    requires n <= i <= |cells| && forall j :: n <= j < i ==> cells[j] == None
    ensures Gather(cells[n..i]) == []
    ensures i < |cells| && cells[i].Some? ==> Gather(cells[n..]) == [cells[i].value] + Gather(cells[i + 1..])
    ensures i == |cells| ==> Gather(cells[n..]) == []
  {
    hide Gather;
    GatherNone(cells[n..i]);
    assert cells[n..] == cells[n..i] + cells[i..];
    GatherAppend(cells[n..i], cells[i..]);
    if i < |cells| {
      GatherOne(cells[i]);
      assert cells[i..] == [cells[i]] + cells[i + 1..];
      GatherAppend([cells[i]], cells[i + 1..]);
    } else {
      assert cells[n..i] == cells[n..];
    }
  }

  /** What the used slots from slot i on hold. */
  ghost function Onward<T>(cells: seq<Option<T>>, i: nat): seq<T>
    requires i <= |cells|
  {
    Gather(cells[i..])
  }

  lemma OnwardStart<T>(cells: seq<Option<T>>)
    ensures Onward(cells, 0) == Gather(cells) && Onward(cells, |cells|) == []
  {
    assert cells[0..] == cells;
  }

  lemma OnwardUsed<T>(cells: seq<Option<T>>, i: nat)
    requires i < |cells| && cells[i].Some?
    ensures Onward(cells, i) == [cells[i].value] + Onward(cells, i + 1)
  {
    hide Gather;
    GatherFrom(cells, i, i);
  }

  lemma OnwardSkip<T>(cells: seq<Option<T>>, n: nat, i: nat)
    requires n <= i <= |cells| && forall j :: n <= j < i ==> cells[j] == None
    ensures Onward(cells, n) == Onward(cells, i)
  {
    hide Gather;
    GatherNone(cells[n..i]);
    assert cells[n..] == cells[n..i] + cells[i..];
    GatherAppend(cells[n..i], cells[i..]);
  }

  lemma GatherOne<T>(x: Option<T>)
    ensures Gather([x]) == if x.Some? then [x.value] else []
  {
    assert [x][..0] == [];
  }

  /** nor before slot n. */
  lemma GatherUpTo<T>(cells: seq<Option<T>>, n: nat, i: nat)
    requires i <= n <= |cells| && forall j :: i <= j < n ==> cells[j] == None
    ensures Gather(cells[..n]) == Gather(cells[..i])
  {
    hide Gather;
    GatherNone(cells[i..n]);
    assert cells[..n] == cells[..i] + cells[i..n];
    GatherAppend(cells[..i], cells[i..n]);
  }

  /** moveRecord and moveEntry: the contents of a slot move to an unused slot. */
  function Moved<T>(cells: seq<Option<T>>, from: nat, to: nat): (r: seq<Option<T>>)
    requires from < |cells| && to < |cells|
    ensures |r| == |cells|
  {
    if cells[to] == None && cells[from].Some? then cells[to := cells[from]][from := None] else cells
  }

  /** Moving to the slot next to it keeps the order. */
  lemma MovedGather<T>(cells: seq<Option<T>>, from: nat, to: nat)
    requires from < |cells| && to < |cells| && (from == to + 1 || to == from + 1)
    ensures Gather(Moved(cells, from, to)) == Gather(cells)
  {
    hide Gather;
    var moved := Moved(cells, from, to);
    if moved != cells {
      var lo, v := if from < to then from else to, cells[from].value;
      PairSwapped(cells[..lo], v, cells[lo + 2..]);
      PairAround(cells, lo);
      PairAround(moved, lo);
      assert moved[..lo] == cells[..lo];
      assert moved[lo + 2..] == cells[lo + 2..];
    }
  }

  lemma PairAround<T>(cells: seq<Option<T>>, i: nat)
    requires i + 1 < |cells|
    ensures cells == cells[..i] + [cells[i], cells[i + 1]] + cells[i + 2..]
  {
  }

  lemma PairSwapped<T>(a: seq<Option<T>>, v: T, b: seq<Option<T>>)
    ensures Gather(a + [Some(v), None] + b) == Gather(a + [None, Some(v)] + b)
  {
    GatherThree(a, [Some(v), None], b);
    GatherThree(a, [None, Some(v)], b);
    GatherTwo(Some(v), None);
    GatherTwo(None, Some(v));
  }

  lemma GatherThree<T>(a: seq<Option<T>>, m: seq<Option<T>>, b: seq<Option<T>>)
    ensures Gather(a + m + b) == Gather(a) + Gather(m) + Gather(b)
  {
    GatherAppend(a + m, b);
    GatherAppend(a, m);
  }

  lemma GatherTwo<T>(x: Option<T>, y: Option<T>)
    ensures Gather([x, y]) == (if x.Some? then [x.value] else []) + (if y.Some? then [y.value] else [])
  {
    assert [x, y][..1] == [x];
    assert Gather([x][..0]) == [];
  }

  /** Filling an unused slot puts its contents between those before and after it. */
  lemma GatherFill<T>(cells: seq<Option<T>>, i: nat, x: T)
    requires i < |cells| && cells[i] == None
    ensures Gather(cells[i := Some(x)]) == Gather(cells[..i]) + [x] + Gather(cells[i + 1..])
    ensures Gather(cells) == Gather(cells[..i]) + Gather(cells[i + 1..])
  {
    GatherAt(cells[i := Some(x)], i);
    GatherAt(cells, i);
  }

  /** Emptying a used slot takes its contents out of the sequence. */
  lemma GatherClear<T>(cells: seq<Option<T>>, i: nat)
    requires i < |cells| && cells[i].Some?
    ensures var c, r := |Gather(cells[..i])|, Gather(cells);
            c < |r| && r[c] == cells[i].value && Gather(cells[i := None]) == r[..c] + r[c + 1..]
  {
    hide Gather;
    GatherPlace(cells, i);
    GatherAt(cells[i := None], i);
    assert cells[i := None][..i] == cells[..i] && cells[i := None][i + 1..] == cells[i + 1..];
  }

  /** Changing a used slot changes its place in the sequence. */
  lemma GatherSet<T>(cells: seq<Option<T>>, i: nat, x: T)
    requires i < |cells| && cells[i].Some?
    ensures var c, r := |Gather(cells[..i])|, Gather(cells);
            c < |r| && Gather(cells[i := Some(x)]) == r[c := x]
  {
    GatherPlace(cells, i);
    GatherAt(cells[i := Some(x)], i);
  }

  // ------------------------------------------------- making room by shifting

  /** How far the loop that moves slots down has come: the gap that was in slot from is now in
      slot i, and the slots between have moved by one. */
  ghost predicate GapDown<T>(before: seq<Option<T>>, now: seq<Option<T>>, from: nat, i: nat) {
    && |now| == |before| && from <= i < |before| && now[i] == None
    && (forall j :: 0 <= j < |before| && (j < from || i < j) ==> now[j] == before[j])
    && (forall j :: from <= j < i ==> now[j] == before[j + 1])
  }

  lemma GapDownNext<T>(before: seq<Option<T>>, now: seq<Option<T>>, from: nat, i: nat)
    requires GapDown(before, now, from, i) && i + 1 < |before|
    ensures GapDown(before, Moved(now, i + 1, i), from, i + 1)
  {
  }

  lemma GapDownFilled<T>(before: seq<Option<T>>, now: seq<Option<T>>, from: nat, i: nat, x: T)
    requires GapDown(before, now, from, i)
    ensures now[i] == None && (i > from ==> now[i - 1] == before[i])
    ensures var rest := before[..from] + before[from + 1..];
            now[i := Some(x)] == rest[..i] + [Some(x)] + rest[i..]
  {
  }

  /** The same for the loop that moves slots up. */
  ghost predicate GapUp<T>(before: seq<Option<T>>, now: seq<Option<T>>, from: nat, i: nat) {
    && |now| == |before| && i <= from < |before| && now[i] == None
    && (forall j :: 0 <= j < |before| && (j < i || from < j) ==> now[j] == before[j])
    && (forall j :: i < j <= from ==> now[j] == before[j - 1])
  }

  lemma GapUpNext<T>(before: seq<Option<T>>, now: seq<Option<T>>, from: nat, i: nat)
    requires GapUp(before, now, from, i) && i > 0
    ensures GapUp(before, Moved(now, i - 1, i), from, i - 1)
  {
  }

  lemma GapUpFilled<T>(before: seq<Option<T>>, now: seq<Option<T>>, from: nat, i: nat, x: T)
    requires GapUp(before, now, from, i)
    ensures now[i] == None && (i > 0 ==> now[i - 1] == before[i - 1])
    ensures var rest := before[..from] + before[from + 1..];
            now[i := Some(x)] == rest[..i] + [Some(x)] + rest[i..]
  {
  }

  /** Slot good is now unused, and the n values that were before it still are: slots moved
      by one place at most. */
  ghost predicate Shifted<T>(before: seq<Option<T>>, after: seq<Option<T>>, good: nat, n: nat) {
    && |after| == |before| && good < |after| && after[good] == None
    && Gather(after) == Gather(before) && n <= |Gather(before)| && Gather(after[..good]) == Gather(before)[..n]
  }

  /** Then filling it inserts at place n. */
  lemma ShiftedFill<T>(before: seq<Option<T>>, after: seq<Option<T>>, good: nat, n: nat, x: T)
    requires Shifted(before, after, good, n)
    ensures n <= |Gather(before)|
    ensures Gather(after[good := Some(x)]) == Gather(before)[..n] + [x] + Gather(before)[n..]
  {
    GatherFill(after, good, x);
    var r := Gather(before);
    assert r == r[..n] + r[n..];
  }

  /** Shifting down: everything after slot last is where it was. */
  lemma ShiftedDown<T>(before: seq<Option<T>>, after: seq<Option<T>>, last: nat)
    requires |after| == |before| && last < |before| && after[last] == None && Gather(after) == Gather(before)
    requires after[last + 1..] == before[last + 1..]
    ensures Shifted(before, after, last, |Gather(before[..last + 1])|)
  {
    GatherAt(after, last);
    assert before == before[..last + 1] + before[last + 1..];
    GatherAppend(before[..last + 1], before[last + 1..]);
    SameFront(Gather(after[..last]), Gather(before[..last + 1]), Gather(before[last + 1..]));
  }

  lemma SameFront<T>(a: seq<T>, b: seq<T>, c: seq<T>)
    requires a + c == b + c
    ensures a == b && (b + c)[..|b|] == b
  {
    assert |a| == |b|;
    forall i | 0 <= i < |a|
      ensures a[i] == b[i]
    {
      assert (a + c)[i] == a[i] && (b + c)[i] == b[i];
    }
  }

  /** Shifting up: everything before slot good is where it was. */
  lemma ShiftedUp<T>(before: seq<Option<T>>, after: seq<Option<T>>, good: nat)
    requires |after| == |before| && good < |before| && after[good] == None && Gather(after) == Gather(before)
    requires after[..good] == before[..good]
    ensures Shifted(before, after, good, |Gather(before[..good])|)
  {
    GatherAt(before, good);
  }
}
