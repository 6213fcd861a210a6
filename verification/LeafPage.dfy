/** A leaf page as it is stored: an array of record slots with gaps, and a header bitmap.
    Its operations are those of the sequence of tuples in the used slots. */
module LeafPages {
  import opened Pages
  import opened Slots
  import opened LeafPairs

  /** A stored tuple with its record id. */
  datatype Record = Record(tuple: Tuple, rid: RecordId)

  /** What each slot holds. */
  ghost function CellsOf(header: seq<bv8>, records: seq<Record>): (cells: seq<Option<Tuple>>)
    requires |records| <= 8 * |header|
    ensures |cells| == |records|
    ensures forall i :: 0 <= i < |cells| ==> cells[i] == if IsSlotUsed(header, i) then Some(records[i].tuple) else None
  {
    seq(|records|, i requires 0 <= i < |records| => if IsSlotUsed(header, i) then Some(records[i].tuple) else None)
  }

  /** Every tuple stored on a page has a record id that names the page and its own slot. */
  ghost predicate OwnPlaces(page: PageId, header: seq<bv8>, records: seq<Record>) {
    forall i :: 0 <= i < |records| && i / 8 < |header| && IsSlotUsed(header, i) ==> records[i].rid == RecordId(page, i)
  }

  lemma CellMarked(page: PageId, header: seq<bv8>, header': seq<bv8>, records: seq<Record>, i: nat, value: bool)
    requires |records| <= 8 * |header| && i < |records|
    requires BitWritten(header, header', i, value)
    requires OwnPlaces(page, header, records) && (value ==> records[i].rid == RecordId(page, i))
    ensures OwnPlaces(page, header', records)
    ensures CellsOf(header', records) == CellsOf(header, records)[i := if value then Some(records[i].tuple) else None]
  {
    hide IsSlotUsed;
  }

  /** Writing to an unused slot. */
  lemma CellWritten(page: PageId, header: seq<bv8>, records: seq<Record>, i: nat, x: Record)
    requires |records| <= 8 * |header| && i < |records| && OwnPlaces(page, header, records) && CellsOf(header, records)[i] == None
    ensures OwnPlaces(page, header, records[i := x]) && CellsOf(header, records[i := x]) == CellsOf(header, records)
  {
    hide IsSlotUsed;
  }

  /** A used slot names itself. */
  lemma CellUsed(page: PageId, header: seq<bv8>, records: seq<Record>, i: nat)
    requires |records| <= 8 * |header| && i < |records| && OwnPlaces(page, header, records) && CellsOf(header, records)[i].Some?
    ensures records[i].rid == RecordId(page, i) && CellsOf(header, records)[i] == Some(records[i].tuple)
  {
  }

  /** The tuples up to the last key that is not above key come first. */
  lemma RankAtGap(cells: seq<Option<Tuple>>, n: nat, key: int)
    requires n <= |cells|
    requires forall i :: 0 <= i < n && cells[i].Some? ==> cells[i].value.key <= key
    requires Gather(cells[n..]) != [] ==> key < Gather(cells[n..])[0].key
    ensures Rank(Gather(cells), key) == |Gather(cells[..n])|
  {
    assert cells == cells[..n] + cells[n..];
    GatherAppend(cells[..n], cells[n..]);
    GatherKeys(cells[..n], key);
    RankUnique(Gather(cells), key, |Gather(cells[..n])|);
  }

  lemma {:induction false} GatherKeys(cells: seq<Option<Tuple>>, key: int)
    requires forall i :: 0 <= i < |cells| && cells[i].Some? ==> cells[i].value.key <= key
    ensures forall i :: 0 <= i < |Gather(cells)| ==> Gather(cells)[i].key <= key
  {
    if cells != [] {
      GatherKeys(cells[..|cells| - 1], key);
    }
  }

  lemma RankUnique(ts: seq<Tuple>, key: int, r: nat)
    requires r <= |ts| && forall i :: 0 <= i < r ==> ts[i].key <= key
    requires r < |ts| ==> key < ts[r].key
    ensures Rank(ts, key) == r
  {
  }

  /** The first used slot from i on holds the first of the tuples from i on. */
  lemma FirstUsed(cells: seq<Option<Tuple>>, n: nat, i: nat)
    requires n <= i < |cells| && cells[i].Some?
    requires forall j :: n <= j < i ==> cells[j] == None
    ensures Gather(cells[n..]) != [] && Gather(cells[n..])[0] == cells[i].value
    ensures Gather(cells[..i]) == Gather(cells[..n])
  {
    assert cells[n..] == cells[n..i] + cells[i..];
    GatherAppend(cells[n..i], cells[i..]);
    GatherNone(cells[n..i]);
    assert cells[i..][0] == cells[i];
    GatherAt(cells[i..], 0);
    assert cells[..i] == cells[..n] + cells[n..i];
    GatherAppend(cells[..n], cells[n..i]);
  }

  lemma NoneUsed(cells: seq<Option<Tuple>>, n: nat)
    requires n <= |cells| && forall j :: n <= j < |cells| ==> cells[j] == None
    ensures Gather(cells[n..]) == []
  {
    GatherNone(cells[n..]);
  }

  class BTreeLeafPage {
    const pid: PageId
    const numSlots: nat
    const header: array<bv8>
    const tuples: array<Record>

    ghost predicate Valid()
      reads tuples, header
    {
      && tuples.Length == numSlots && numSlots <= 8 * header.Length && (header as object) != (tuples as object)
      && OwnPlaces(pid, header[..], tuples[..])
    }

    ghost function Cells(): (cells: seq<Option<Tuple>>)
      requires Valid()
      reads tuples, header
      ensures |cells| == numSlots
    {
      CellsOf(header[..], tuples[..])
    }

    /** The tuples on the page, in slot order. */
    ghost function Contents(): seq<Tuple>
      requires Valid()
      reads tuples, header
    {
      Gather(Cells())
    }

    /** An empty page. */
    constructor (pid: PageId, numSlots: nat)
      ensures Valid() && this.pid == pid && this.numSlots == numSlots && Contents() == [] && fresh(header) && fresh(tuples)
    {
      this.pid, this.numSlots := pid, numSlots;
      header := new bv8[numSlots / 8 + 1](_ => 0);
      tuples := new Record[numSlots](_ => Record(Tuple(0, []), RecordId(pid, 0)));
      new;
      assert forall i :: 0 <= i < numSlots ==> !IsSlotUsed(header[..], i);
      GatherNone(Cells());
    }

    predicate Used(i: nat)
      requires Valid() && i < numSlots
      reads tuples, header
      ensures Used(i) <==> Cells()[i].Some?
      ensures Used(i) ==> Cells()[i] == Some(tuples[i].tuple)
    {
      IsSlotUsed(header[..], i)
    }

    method Mark(i: nat, value: bool)
      requires Valid() && i < numSlots && (value ==> tuples[i].rid == RecordId(pid, i))
      modifies header
      ensures Valid()
      ensures Cells() == old(Cells())[i := if value then Some(tuples[i].tuple) else None]
    {
      hide IsSlotUsed, OwnPlaces, CellsOf;
      ghost var before, records := header[..], tuples[..];
      MarkSlotUsed(header, i, value);
      assert tuples[..] == records;
      CellMarked(pid, before, header[..], records, i, value);
    }

    /** Writes a record to an unused slot. */
    method Store(i: nat, x: Record)
      requires Valid() && i < numSlots && Cells()[i] == None
      modifies tuples
      ensures Valid() && Cells() == old(Cells()) && tuples[..] == old(tuples[..])[i := x]
    {
      hide IsSlotUsed, OwnPlaces, CellsOf;
      ghost var bits, before := header[..], tuples[..];
      CellWritten(pid, bits, before, i, x);
      tuples[i] := x;
      assert tuples[..] == before[i := x] && header[..] == bits;
    }

    /** moveRecord. */
    method MoveRecord(from: nat, to: nat)
      requires Valid() && from < numSlots && to < numSlots
      modifies header, tuples
      ensures Valid() && Cells() == Moved(old(Cells()), from, to)
    {
      hide IsSlotUsed, OwnPlaces, CellsOf;
      if !Used(to) && Used(from) {
        CellUsed(pid, header[..], tuples[..], from);
        Store(to, tuples[from].(rid := RecordId(pid, to)));
        Mark(to, true);
        Mark(from, false);
      }
    }

    /** The loop that looks for the first empty slot; -1 when there is none. */
    method FirstEmptySlot() returns (emptySlot: int)
      requires Valid()
      ensures -1 <= emptySlot < numSlots
      ensures emptySlot == -1 <==> |Contents()| == numSlots
      ensures emptySlot >= 0 ==> Cells()[emptySlot] == None && forall i :: 0 <= i < emptySlot ==> Cells()[i].Some?
    {
      hide IsSlotUsed, OwnPlaces, CellsOf, Gather;
      GatherRoom(Cells());
      emptySlot := -1;
      for i := 0 to numSlots
        invariant forall j :: 0 <= j < i ==> Cells()[j].Some?
      {
        if !Used(i) {
          return i;
        }
      }
    }

    /** The loop that looks for the last key that is not above key, from the front. */
    method LastNotAbove(key: int) returns (lessOrEqKey: int)
      requires Valid()
      ensures -1 <= lessOrEqKey < numSlots
      ensures lessOrEqKey >= 0 ==> Cells()[lessOrEqKey].Some?
      ensures Rank(Contents(), key) == |Gather(Cells()[..lessOrEqKey + 1])|
    {
      hide IsSlotUsed, OwnPlaces, CellsOf, Gather, Rank;
      lessOrEqKey := -1;
      ghost var cells := Cells();
      for i := 0 to numSlots
        invariant -1 <= lessOrEqKey < i
        invariant lessOrEqKey >= 0 ==> cells[lessOrEqKey].Some?
        invariant forall j :: 0 <= j < i && cells[j].Some? ==> cells[j].value.key <= key
        invariant forall j :: lessOrEqKey < j < i ==> cells[j] == None
      {
        if Used(i) {
          if !(tuples[i].tuple.key <= key) {
            FirstUsed(cells, lessOrEqKey + 1, i);
            RankAtGap(cells, lessOrEqKey + 1, key);
            return;
          }
          lessOrEqKey := i;
        }
      }
      NoneUsed(cells, lessOrEqKey + 1);
      RankAtGap(cells, lessOrEqKey + 1, key);
    }

    /** The loop that moves records down, into the empty slot and the gaps after it. */
    method ShiftDown(emptySlot: nat, last: nat)
      requires Valid() && emptySlot < last < numSlots && Cells()[emptySlot] == None
      modifies header, tuples
      ensures Valid() && Shifted(old(Cells()), Cells(), last, |Gather(old(Cells())[..last + 1])|)
      ensures GapDown(old(Cells()), Cells(), emptySlot, last)
    {
      hide IsSlotUsed, OwnPlaces, CellsOf, Gather, Shifted;
      ghost var before := Cells();
      for i := emptySlot to last
        invariant Valid() && GapDown(before, Cells(), emptySlot, i) && Gather(Cells()) == Gather(before)
        invariant forall j :: last < j < numSlots ==> Cells()[j] == before[j]
      {
        GapDownNext(before, Cells(), emptySlot, i);
        MovedGather(Cells(), i + 1, i);
        MoveRecord(i + 1, i);
      }
      assert Cells()[last + 1..] == before[last + 1..];
      ShiftedDown(before, Cells(), last);
    }

    /** The loop that moves records up, to make room at slot good. */
    method ShiftUp(emptySlot: nat, good: nat)
      requires Valid() && good <= emptySlot < numSlots && Cells()[emptySlot] == None
      modifies header, tuples
      ensures Valid() && Shifted(old(Cells()), Cells(), good, |Gather(old(Cells())[..good])|)
      ensures GapUp(old(Cells()), Cells(), emptySlot, good)
    {
      hide IsSlotUsed, OwnPlaces, CellsOf, Gather, Shifted;
      ghost var before := Cells();
      var i := emptySlot;
      while i > good
        invariant good <= i <= emptySlot && Valid() && GapUp(before, Cells(), emptySlot, i) && Gather(Cells()) == Gather(before)
        invariant forall j :: 0 <= j < good ==> Cells()[j] == before[j]
      {
        GapUpNext(before, Cells(), emptySlot, i);
        MovedGather(Cells(), i - 1, i);
        MoveRecord(i - 1, i);
        i := i - 1;
      }
      assert Cells()[..good] == before[..good];
      ShiftedUp(before, Cells(), good);
    }

    /** insertTuple: not ok when there is no empty slot; the record id of t names goodSlot. */
    method InsertTuple(t: Tuple) returns (ok: bool, goodSlot: nat)
      requires Valid()
      modifies header, tuples
      ensures Valid() && (ok <==> |old(Contents())| < numSlots)
      ensures ok ==> Contents() == SortedInsert(old(Contents()), t)
      ensures ok ==> exists j :: 0 <= j <= |old(Contents())| && Contents() == old(Contents())[..j] + [t] + old(Contents())[j..]
                                 && (forall i :: 0 <= i < j ==> old(Contents())[i].key <= t.key)
                                 && (j < |old(Contents())| ==> t.key < old(Contents())[j].key)
      ensures ok ==> exists e :: 0 <= e < numSlots && old(Cells())[e] == None && (forall i :: 0 <= i < e ==> old(Cells())[i].Some?)
                                 && goodSlot < numSlots
                                 && Cells() == (old(Cells())[..e] + old(Cells())[e + 1..])[..goodSlot] + [Some(t)]
                                             + (old(Cells())[..e] + old(Cells())[e + 1..])[goodSlot..]
      ensures ok && 0 < goodSlot < numSlots ==> Cells()[goodSlot - 1].Some?
      ensures ok ==> goodSlot < numSlots && Cells()[goodSlot] == Some(t) && tuples[goodSlot] == Record(t, RecordId(pid, goodSlot))
      ensures !ok ==> Contents() == old(Contents())
    {
      hide IsSlotUsed, OwnPlaces, CellsOf, Gather, Rank, Shifted, GapDown, GapUp;
      ghost var before := Cells();
      var emptySlot := FirstEmptySlot();
      if emptySlot == -1 {
        return false, 0;
      }
      var lessOrEqKey := LastNotAbove(t.key);
      ghost var n := |Gather(before[..lessOrEqKey + 1])|;
      if emptySlot < lessOrEqKey {
        ShiftDown(emptySlot, lessOrEqKey);
        goodSlot := lessOrEqKey;
        GapDownFilled(before, Cells(), emptySlot, goodSlot, t);
      } else {
        ShiftUp(emptySlot, lessOrEqKey + 1);
        goodSlot := lessOrEqKey + 1;
        GapUpFilled(before, Cells(), emptySlot, goodSlot, t);
      }
      ghost var shifted := Cells();
      ShiftedFill(before, shifted, goodSlot, n, t);
      Store(goodSlot, Record(t, RecordId(pid, goodSlot)));
      Mark(goodSlot, true);
      ok := true;
    }

    /** deleteTuple of the tuple with a record id; not ok when it names another page or an
        unused slot. */
    method DeleteTuple(rid: RecordId) returns (ok: bool)
      requires Valid() && (rid.pageId == pid ==> rid.slot < numSlots)
      modifies header
      ensures Valid() && (ok <==> rid.pageId == pid && old(Cells())[rid.slot].Some?)
      ensures ok ==> var index := |Gather(old(Cells())[..rid.slot])|;
                && index < |old(Contents())| && old(Contents())[index] == old(tuples[rid.slot]).tuple
                && old(tuples[rid.slot]).rid == rid && Contents() == RemoveTuple(old(Contents()), index)
      ensures !ok ==> Contents() == old(Contents())
    {
      hide IsSlotUsed, OwnPlaces, CellsOf, Gather;
      ok := rid.pageId == pid && Used(rid.slot);
      if ok {
        CellUsed(pid, header[..], tuples[..], rid.slot);
        GatherClear(Cells(), rid.slot);
        Mark(rid.slot, false);
      }
    }

    /** Every tuple of the page has one record id: the slot at its place in the sequence. */
    lemma RecordIdAt(index: nat) returns (rid: RecordId)
      requires Valid() && index < |Contents()|
      ensures rid.pageId == pid && rid.slot < numSlots && tuples[rid.slot] == Record(Contents()[index], rid)
      ensures Cells()[rid.slot].Some? && |Gather(Cells()[..rid.slot])| == index
    {
      hide IsSlotUsed, OwnPlaces, Gather;
      var slot := GatherSlot(Cells(), index);
      GatherPlace(Cells(), slot);
      CellUsed(pid, header[..], tuples[..], slot);
      rid := RecordId(pid, slot);
    }

    /** getNumEmptySlots. */
    method GetNumEmptySlots() returns (cnt: nat)
      requires Valid()
      ensures cnt == numSlots - |Contents()|
    {
      hide IsSlotUsed, OwnPlaces, CellsOf;
      cnt := 0;
      ghost var cells := Cells();
      assert cells[..0] == [];
      for i := 0 to numSlots
        invariant cnt == i - |Gather(cells[..i])|
      {
        GatherNext(cells, i);
        if !Used(i) {
          cnt := cnt + 1;
        }
      }
      assert cells[..numSlots] == cells;
    }

    /** The steps of the iterators: from a slot on, the next used slot, or numSlots. */
    method NextUsed(from: nat) returns (index: nat)
      requires Valid() && from <= numSlots
      ensures from <= index <= numSlots && tuples.Length == numSlots
      ensures index < numSlots ==> Cells()[index] == Some(tuples[index].tuple)
      ensures forall j :: from <= j < index ==> Cells()[j] == None
      ensures Onward(Cells(), from) == Onward(Cells(), index)
    {
      hide IsSlotUsed, OwnPlaces, CellsOf, Onward;
      index := from;
      ghost var cells := Cells();
      while index < numSlots
        invariant from <= index <= numSlots
        invariant forall j :: from <= j < index ==> cells[j] == None
      {
        if Used(index) {
          break;
        }
        index := index + 1;
      }
      OnwardSkip(cells, from, index);
    }

    /** The steps of the reverse iterators: before a slot, the last used one, or -1. */
    method PreviousUsed(before: nat) returns (index: int)
      requires Valid() && before <= numSlots
      ensures -1 <= index < before
      ensures index >= 0 ==> Cells()[index] == Some(tuples[index].tuple)
      ensures Gather(Cells()[..before]) == if index == -1 then [] else Gather(Cells()[..index]) + [tuples[index].tuple]
    {
      hide IsSlotUsed, OwnPlaces, CellsOf, Gather;
      index := before - 1;
      ghost var cells := Cells();
      while index >= 0
        invariant -1 <= index < before
        invariant forall j :: index < j < before ==> cells[j] == None
      {
        if Used(index) {
          break;
        }
        index := index - 1;
      }
      GatherUpTo(cells, before, index + 1);
      if index >= 0 {
        GatherNext(cells, index);
      }
    }

    /** A walk with the iterator gives every tuple once, in order. */
    method Walk() returns (ts: seq<Tuple>)
      requires Valid()
      ensures ts == Contents()
    {
      hide IsSlotUsed, OwnPlaces, CellsOf, Gather, Onward, BTreeLeafPage.Valid;
      ts := [];
      ghost var cells := Cells();
      OnwardStart(cells);
      var index := NextUsed(0);
      while index < numSlots
        invariant index <= numSlots && tuples.Length == numSlots
        invariant index < numSlots ==> cells[index] == Some(tuples[index].tuple)
        invariant Contents() == ts + Onward(cells, index)
      {
        OnwardUsed(cells, index);
        ts := ts + [tuples[index].tuple];
        index := NextUsed(index + 1);
      }
    }
  }
}
