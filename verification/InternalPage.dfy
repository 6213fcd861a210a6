/** An internal page as it is stored: arrays of keys and children with gaps, and a header
    bitmap.  Its operations are those of the sequence of used slots. */
module InternalPages {
  import opened Pages
  import opened Levels
  import opened Slots

  /** What each slot holds. */
  ghost function CellsOf(header: seq<bv8>, keys: seq<int>, children: seq<nat>): (cells: seq<Option<Slot>>)
    requires |keys| == |children| <= 8 * |header|
    ensures |cells| == |keys|
    ensures forall i :: 0 <= i < |cells| ==> cells[i] == if IsSlotUsed(header, i) then Some(Slot(keys[i], children[i])) else None
  {
    seq(|keys|, i requires 0 <= i < |keys| => if IsSlotUsed(header, i) then Some(Slot(keys[i], children[i])) else None)
  }

  lemma CellMarked(header: seq<bv8>, header': seq<bv8>, keys: seq<int>, children: seq<nat>, i: nat, value: bool)
    requires |keys| == |children| <= 8 * |header| && i < |keys|
    requires BitWritten(header, header', i, value)
    ensures CellsOf(header', keys, children) == CellsOf(header, keys, children)[i := if value then Some(Slot(keys[i], children[i])) else None]
  {
    hide IsSlotUsed;
  }

  /** Writing a slot changes what it holds, if it is used. */
  lemma CellWritten(header: seq<bv8>, keys: seq<int>, children: seq<nat>, i: nat, x: Slot)
    requires |keys| == |children| <= 8 * |header| && i < |keys|
    ensures var cells := CellsOf(header, keys, children);
            CellsOf(header, keys[i := x.key], children[i := x.child]) == if cells[i] == None then cells else cells[i := Some(x)]
  {
    hide IsSlotUsed;
  }

  // ------------------------------------------------- matching the children of an entry

  predicate Matches(x: Slot, left: nat, right: nat) {
    x.child == left || x.child == right
  }

  /** The slot with child right, if it is one, given child left. */
  function Renamed(x: Slot, left: nat, right: nat): Slot {
    if x.child == right then Slot(x.key, left) else x
  }

  lemma RelabelNext(slots: seq<Slot>, left: nat, right: nat, a: nat, b: nat)
    requires a <= b < |slots|
    ensures Relabel(slots, left, right, a, b)[b] == slots[b]
    ensures Relabel(slots, left, right, a, b + 1) == Relabel(slots, left, right, a, b)[b := Renamed(slots[b], left, right)]
  {
  }

  /** How far the matching loop has come: the first x slots have been looked at, those from
      a on match and have been renamed. */
  ghost predicate Matching(before: seq<Slot>, now: seq<Slot>, key: int, left: nat, right: nat, a: nat, x: nat) {
    && a <= x <= |before| && now == Relabel(before, left, right, a, x)
    && (forall c :: 0 <= c < a ==> !Matches(before[c], left, right))
    && (forall c :: a <= c < x ==> Matches(before[c], left, right) && (c > 0 ==> before[c].key <= key))
  }

  lemma MatchingStart(slots: seq<Slot>, key: int, left: nat, right: nat)
    ensures Matching(slots, slots, key, left, right, 0, 0)
  {
    assert Relabel(slots, left, right, 0, 0) == slots;
  }

  lemma MatchingSkip(before: seq<Slot>, now: seq<Slot>, key: int, left: nat, right: nat, x: nat)
    requires Matching(before, now, key, left, right, x, x) && x < |before|
    ensures now[x] == before[x]
    ensures !Matches(before[x], left, right) ==> Matching(before, now, key, left, right, x + 1, x + 1)
  {
    assert Relabel(before, left, right, x + 1, x + 1) == before == Relabel(before, left, right, x, x);
  }

  lemma MatchingNext(before: seq<Slot>, now: seq<Slot>, key: int, left: nat, right: nat, a: nat, x: nat)
    requires Matching(before, now, key, left, right, a, x) && x < |before|
    ensures now[x] == before[x]
    ensures Matches(before[x], left, right) && (x > 0 ==> before[x].key <= key) ==>
              Matching(before, now[x := Renamed(before[x], left, right)], key, left, right, a, x + 1)
  {
    RelabelNext(before, left, right, a, x);
  }

  /** A matching slot with too large a key fails. */
  lemma MatchingFailsHere(before: seq<Slot>, now: seq<Slot>, key: int, left: nat, right: nat, a: nat, x: nat)
    requires Matching(before, now, key, left, right, a, x) && 0 < x < |before| && |before| > 1
    requires Matches(before[x], left, right) && key < before[x].key
    ensures InsertEntry(before, key, left, right) == None
  {
    FirstMatchAt(before, left, right, 0, a);
    assert FirstMatch(before, left, right, 0) == a;
    assert forall c :: a <= c <= x ==> Matches(before[c], left, right);
    var b := RunEnd(before, left, right, a);
    assert a <= x < b by { RunBeyond(before, left, right, a, x); }
  }

  lemma {:induction false} RunBeyond(slots: seq<Slot>, left: nat, right: nat, i: nat, x: nat)
    requires i <= x < |slots| && forall c :: i <= c <= x ==> Matches(slots[c], left, right)
    ensures x < RunEnd(slots, left, right, i)
    decreases x - i
  {
    if i < x {
      RunBeyond(slots, left, right, i + 1, x);
    }
  }

  /** The loop is over: at slot x, which does not match, or after the last slot. */
  lemma MatchingDone(before: seq<Slot>, now: seq<Slot>, key: int, left: nat, right: nat, a: nat, x: nat)
    requires Matching(before, now, key, left, right, a, x) && |before| > 1
    requires x < |before| ==> a < x && !Matches(before[x], left, right)
    ensures InsertEntry(before, key, left, right) ==
            if a == x || (x < |before| && before[x].key < key) then None
            else Some(now[..x] + [Slot(key, right)] + now[x..])
  {
    FirstMatchAt(before, left, right, 0, a);
    RunEndAt(before, left, right, a, x);
  }

  /** The same slots are in use. */
  ghost predicate SameUsed(a: seq<Option<Slot>>, b: seq<Option<Slot>>) {
    |a| == |b| && forall i :: 0 <= i < |a| ==> (a[i].Some? <==> b[i].Some?)
  }

  lemma SameUsedSelf(a: seq<Option<Slot>>)
    ensures SameUsed(a, a)
  {
  }

  lemma SameUsedAt(a: seq<Option<Slot>>, b: seq<Option<Slot>>)
    requires SameUsed(a, b)
    ensures |a| == |b| && forall i :: 0 <= i < |a| ==> (a[i].Some? <==> b[i].Some?)
  {
  }

  /** So are those that are in use once slot e has been taken out and another put in. */
  lemma SameUsedMoved(a: seq<Option<Slot>>, b: seq<Option<Slot>>, e: nat, g: nat, x: Slot)
    requires SameUsed(a, b) && e < |a| && g < |a|
    ensures var r, s := a[..e] + a[e + 1..], b[..e] + b[e + 1..];
            SameUsed(r[..g] + [Some(x)] + r[g..], s[..g] + [Some(x)] + s[g..])
  {
  }

  lemma SameUsedSet(a: seq<Option<Slot>>, b: seq<Option<Slot>>, i: nat, x: Slot)
    requires SameUsed(a, b) && i < |a| && a[i].Some?
    ensures SameUsed(a[i := Some(x)], b)
  {
  }

  class BTreeInternalPage {
    const pid: PageId
    const numSlots: nat   // one more than getMaxEntries
    const header: array<bv8>
    const keys: array<int>
    const children: array<nat>
    var childCategory: PageType

    ghost predicate Valid()
      reads header, keys, children
    {
      && keys.Length == children.Length == numSlots <= 8 * header.Length && numSlots >= 2
      && (header as object) != (keys as object) && (header as object) != (children as object)
      && (keys as object) != (children as object) && keys[0] == 0
      && (Slots() != [] ==> Cells()[0].Some?)
    }

    ghost function Cells(): (cells: seq<Option<Slot>>)
      requires keys.Length == children.Length == numSlots <= 8 * header.Length
      reads header, keys, children
      ensures |cells| == numSlots
    {
      CellsOf(header[..], keys[..], children[..])
    }

    /** The used slots, in order: the first child, then each key with the child on its right. */
    ghost function Slots(): seq<Slot>
      requires keys.Length == children.Length == numSlots <= 8 * header.Length
      reads header, keys, children
    {
      Gather(Cells())
    }

    /** An empty page, whose children may be of any category. */
    constructor (pid: PageId, maxEntries: nat)
      requires maxEntries >= 1
      ensures Valid() && this.pid == pid && numSlots == maxEntries + 1 && Slots() == [] && childCategory == RootPtr
      ensures fresh(header) && fresh(keys) && fresh(children)
    {
      this.pid, numSlots := pid, maxEntries + 1;
      header := new bv8[(maxEntries + 1) / 8 + 1](_ => 0);
      keys := new int[maxEntries + 1](_ => 0);
      children := new nat[maxEntries + 1](_ => 0);
      childCategory := RootPtr;
      new;
      assert forall i :: 0 <= i < numSlots ==> !IsSlotUsed(header[..], i);
      GatherNone(Cells());
    }

    predicate Used(i: nat)
      requires keys.Length == children.Length == numSlots <= 8 * header.Length && i < numSlots
      reads header, keys, children
      ensures Used(i) <==> Cells()[i].Some?
      ensures Used(i) ==> Cells()[i] == Some(Slot(keys[i], children[i]))
    {
      IsSlotUsed(header[..], i)
    }

    /** The shape of the page, whatever is in its slots. */
    ghost predicate Shape()
      reads header, keys, children
    {
      && keys.Length == children.Length == numSlots <= 8 * header.Length && numSlots >= 2
      && (header as object) != (keys as object) && (header as object) != (children as object)
      && (keys as object) != (children as object) && keys[0] == 0
    }

    method Mark(i: nat, value: bool)
      requires Shape() && i < numSlots
      modifies header
      ensures Shape() && Cells() == old(Cells())[i := if value then Some(Slot(keys[i], children[i])) else None]
    {
      hide IsSlotUsed, CellsOf;
      ghost var before, k, c := header[..], keys[..], children[..];
      MarkSlotUsed(header, i, value);
      assert keys[..] == k && children[..] == c;
      CellMarked(before, header[..], k, c, i, value);
    }

    method Store(i: nat, x: Slot)
      requires Shape() && i < numSlots && (i == 0 ==> x.key == 0)
      modifies keys, children
      ensures Shape() && keys[i] == x.key && children[i] == x.child
      ensures Cells() == if old(Cells())[i] == None then old(Cells()) else old(Cells())[i := Some(x)]
      ensures forall j :: 0 <= j < numSlots && j != i ==> keys[j] == old(keys[j]) && children[j] == old(children[j])
    {
      hide IsSlotUsed, CellsOf;
      ghost var bits, k, c := header[..], keys[..], children[..];
      CellWritten(bits, k, c, i, x);
      keys[i] := x.key;
      children[i] := x.child;
      assert keys[..] == k[i := x.key] && children[..] == c[i := x.child] && header[..] == bits;
    }

    /** moveEntry. */
    method MoveEntry(from: nat, to: nat)
      requires Shape() && from < numSlots && 0 < to < numSlots
      modifies header, keys, children
      ensures Shape() && Cells() == Moved(old(Cells()), from, to)
    {
      hide IsSlotUsed, CellsOf;
      if !Used(to) && Used(from) {
        Store(to, Slot(keys[from], children[from]));
        Mark(to, true);
        Mark(from, false);
      }
    }

    /** getNumEmptySlots: slot 0, which has no key, is not counted. */
    method GetNumEmptySlots() returns (cnt: nat)
      requires Valid()
      ensures cnt == numSlots - (if Slots() == [] then 1 else |Slots()|)
    {
      hide IsSlotUsed, CellsOf;
      cnt := 0;
      ghost var cells := Cells();
      FirstCell(cells);
      for i := 1 to numSlots
        invariant cnt == i - (if Slots() == [] then 1 else |Gather(cells[..i])|)
        invariant Slots() == [] ==> Gather(cells[..i]) == []
      {
        GatherNext(cells, i);
        GatherAt(cells, i);
        if !Used(i) {
          cnt := cnt + 1;
        }
      }
      assert cells[..numSlots] == cells;
    }

    /** The loop that looks for the first empty slot from 1 on; -1 when there is none. */
    method FirstEmptySlot() returns (emptySlot: int)
      requires Valid() && Slots() != []
      ensures emptySlot == -1 || 1 <= emptySlot < numSlots
      ensures emptySlot == -1 <==> |Slots()| == numSlots
      ensures emptySlot >= 0 ==> Cells()[emptySlot] == None && forall i :: 0 <= i < emptySlot ==> Cells()[i].Some?
    {
      hide IsSlotUsed, CellsOf, Gather;
      GatherRoom(Cells());
      emptySlot := -1;
      for i := 1 to numSlots
        invariant forall j :: 0 <= j < i ==> Cells()[j].Some?
      {
        if !Used(i) {
          return i;
        }
      }
    }

    /** The loop that looks for the children of an entry: lessOrEqKey is the last slot of the
        first run of slots whose child is left or right; each child right is renamed left.
        Not ok when an assertion fails. */
    method MatchChildren(key: int, left: nat, right: nat) returns (ok: bool, lessOrEqKey: int)
      requires Valid() && |Slots()| > 1
      modifies children
      ensures Shape() && (ok <==> Pages.InsertEntry(old(Slots()), key, left, right).Some?)
      ensures ok ==> 0 <= lessOrEqKey < numSlots && Cells()[lessOrEqKey].Some?
      ensures ok ==> var n := |Gather(Cells()[..lessOrEqKey + 1])|;
                n <= |Slots()| && Pages.InsertEntry(old(Slots()), key, left, right) == Some(Slots()[..n] + [Slot(key, right)] + Slots()[n..])
      ensures ok ==> SameUsed(Cells(), old(Cells()))
    {
      hide IsSlotUsed, CellsOf, Gather, Pages.InsertEntry, Matching, Matches, Renamed, SameUsed;
      ghost var before, cells0 := Slots(), Cells();
      SameUsedSelf(cells0);
      ghost var a, x := 0, 0;
      lessOrEqKey := -1;
      MatchingStart(before, key, left, right);
      GatherEmpty(cells0[..0]);
      var i := 0;
      while i < numSlots
        invariant 0 <= i <= numSlots && -1 <= lessOrEqKey < i && Shape()
        invariant SameUsed(Cells(), cells0)
        invariant |Slots()| == |before| && x == |Gather(Cells()[..i])| && Matching(before, Slots(), key, left, right, a, x)
        invariant if lessOrEqKey == -1 then a == x else a < x
        invariant lessOrEqKey >= 0 ==> Cells()[lessOrEqKey].Some? && forall j :: lessOrEqKey < j < i ==> Cells()[j] == None
      {
        ghost var now, cells := Slots(), Cells();
        GatherNext(cells, i);
        if Used(i) {
          GatherPlace(cells, i);
          PlaceZero(cells, i);
          MatchesIs(before[x], left, right);
          MatchingNext(before, now, key, left, right, a, x);
          if children[i] == left || children[i] == right {
            if !(i == 0 || keys[i] <= key) {
              MatchingFailsHere(before, now, key, left, right, a, x);
              return false, lessOrEqKey;
            }
            lessOrEqKey := i;
            RenamedIs(before[x], left, right);
            if children[i] == right {
              SameUsedSet(cells, cells0, i, Slot(keys[i], left));
              RenameChild(i, left);
            } else {
              GatherSame(cells, i);
            }
            x := x + 1;
          } else if lessOrEqKey != -1 {
            MatchingDone(before, now, key, left, right, a, x);
            GatherUpTo(cells, i, lessOrEqKey + 1);
            ok := !(keys[i] < key);
            return;
          } else {
            MatchingSkip(before, now, key, left, right, x);
            a, x := a + 1, x + 1;
          }
        }
        i := i + 1;
      }
      assert Cells()[..numSlots] == Cells();
      MatchingDone(before, Slots(), key, left, right, a, x);
      if lessOrEqKey >= 0 {
        GatherUpTo(Cells(), numSlots, lessOrEqKey + 1);
      }
      ok := lessOrEqKey != -1;
    }

    /** children[i] = left. */
    method RenameChild(i: nat, left: nat)
      requires Shape() && i < numSlots && Cells()[i].Some?
      modifies children
      ensures Shape() && children[i] == left && Cells() == old(Cells())[i := Some(Slot(keys[i], left))]
      ensures var x := |Gather(old(Cells())[..i])|;
              && x < |old(Slots())| && Slots() == old(Slots())[x := Slot(keys[i], left)]
              && Gather(Cells()[..i + 1]) == Gather(old(Cells())[..i]) + [Slot(keys[i], left)]
    {
      hide IsSlotUsed, CellsOf, Gather;
      ghost var bits, k, c := header[..], keys[..], children[..];
      ghost var cells := Cells();
      CellWritten(bits, k, c, i, Slot(keys[i], left));
      children[i] := left;
      assert keys[..] == k[i := keys[i]] && children[..] == c[i := left] && header[..] == bits;
      GatherSet(cells, i, Slot(keys[i], left));
      GatherNext(Cells(), i);
      assert Cells()[..i] == cells[..i];
    }

    /** The loop that moves entries down, into the empty slot and the gaps after it. */
    method ShiftDown(emptySlot: nat, last: nat)
      requires Shape() && 0 < emptySlot < last < numSlots && Cells()[emptySlot] == None
      modifies header, keys, children
      ensures Shape() && Shifted(old(Cells()), Cells(), last, |Gather(old(Cells())[..last + 1])|)
      ensures GapDown(old(Cells()), Cells(), emptySlot, last)
      ensures Cells()[0] == old(Cells())[0]
    {
      hide IsSlotUsed, CellsOf, Gather, Shifted;
      ghost var before := Cells();
      for i := emptySlot to last
        invariant Shape() && GapDown(before, Cells(), emptySlot, i) && Gather(Cells()) == Gather(before)
        invariant forall j :: last < j < numSlots ==> Cells()[j] == before[j]
        invariant Cells()[0] == before[0]
      {
        GapDownNext(before, Cells(), emptySlot, i);
        MovedGather(Cells(), i + 1, i);
        MoveEntry(i + 1, i);
      }
      assert Cells()[last + 1..] == before[last + 1..];
      ShiftedDown(before, Cells(), last);
    }

    /** The loop that moves entries up, to make room at slot good. */
    method ShiftUp(emptySlot: nat, good: nat)
      requires Shape() && 0 < good <= emptySlot < numSlots && Cells()[emptySlot] == None
      modifies header, keys, children
      ensures Shape() && Shifted(old(Cells()), Cells(), good, |Gather(old(Cells())[..good])|)
      ensures GapUp(old(Cells()), Cells(), emptySlot, good)
      ensures Cells()[0] == old(Cells())[0]
    {
      hide IsSlotUsed, CellsOf, Gather, Shifted;
      ghost var before := Cells();
      var i := emptySlot;
      while i > good
        invariant good <= i <= emptySlot && Shape() && GapUp(before, Cells(), emptySlot, i) && Gather(Cells()) == Gather(before)
        invariant forall j :: 0 <= j < good ==> Cells()[j] == before[j]
      {
        GapUpNext(before, Cells(), emptySlot, i);
        MovedGather(Cells(), i - 1, i);
        MoveEntry(i - 1, i);
        i := i - 1;
      }
      assert Cells()[..good] == before[..good];
      ShiftedUp(before, Cells(), good);
    }

    /** The part of insertEntry for a page without entries. */
    method InsertFirst(key: int, left: nat, right: nat)
      requires Valid() && |Slots()| <= 1
      modifies header, keys, children
      ensures Valid() && Some(Slots()) == Pages.InsertEntry(old(Slots()), key, left, right)
      ensures Cells()[0] == Some(Slot(0, left)) && Cells()[1] == Some(Slot(key, right))
      ensures forall i :: 2 <= i < numSlots ==> Cells()[i] == None
    {
      hide IsSlotUsed, CellsOf, Gather;
      ghost var cells := Cells();
      OnlyFirst(cells);
      Store(0, Slot(0, left));
      Store(1, Slot(key, right));
      Mark(0, true);
      Mark(1, true);
      assert Cells() == [Some(Slot(0, left)), Some(Slot(key, right))] + cells[2..];
      TwoCells(Slot(0, left), Slot(key, right), cells[2..]);
    }

    /** The part of insertEntry from the shifting loops on. */
    method InsertAfterMatch(key: int, right: nat, emptySlot: nat, lessOrEqKey: nat) returns (goodSlot: nat)
      requires Shape() && lessOrEqKey < numSlots && Cells()[lessOrEqKey].Some? && Cells()[0].Some?
      requires 0 < emptySlot < numSlots && Cells()[emptySlot] == None
      modifies header, keys, children
      ensures Valid()
      ensures var n := |Gather(old(Cells())[..lessOrEqKey + 1])|;
              n <= |old(Slots())| && Slots() == old(Slots())[..n] + [Slot(key, right)] + old(Slots())[n..]
      ensures var rest := old(Cells())[..emptySlot] + old(Cells())[emptySlot + 1..];
              && 0 < goodSlot < numSlots && Cells()[goodSlot - 1].Some?
              && Cells() == rest[..goodSlot] + [Some(Slot(key, right))] + rest[goodSlot..]
    {
      hide IsSlotUsed, CellsOf, Gather, GapDown, GapUp, Shifted;
      ghost var before := Cells();
      ghost var n := |Gather(before[..lessOrEqKey + 1])|;
      if emptySlot < lessOrEqKey {
        ShiftDown(emptySlot, lessOrEqKey);
        goodSlot := lessOrEqKey;
        GapDownFilled(before, Cells(), emptySlot, goodSlot, Slot(key, right));
      } else {
        ShiftUp(emptySlot, lessOrEqKey + 1);
        goodSlot := lessOrEqKey + 1;
        GapUpFilled(before, Cells(), emptySlot, goodSlot, Slot(key, right));
      }
      ghost var shifted := Cells();
      ShiftedFill(before, shifted, goodSlot, n, Slot(key, right));
      Store(goodSlot, Slot(key, right));
      Mark(goodSlot, true);
    }

    /** insertEntry: not ok when one of its assertions fails. */
    method InsertEntry(key: int, left: nat, right: nat, leftType: PageType, rightType: PageType) returns (ok: bool, goodSlot: nat)
      requires Valid()
      modifies this, header, keys, children
      ensures ok <==> && (if old(childCategory) == RootPtr then leftType == rightType
                          else leftType == old(childCategory) && rightType == old(childCategory))
                      && (|old(Slots())| <= 1 || |old(Slots())| < numSlots)
                      && Pages.InsertEntry(old(Slots()), key, left, right).Some?
      ensures ok ==> Valid() && Some(Slots()) == Pages.InsertEntry(old(Slots()), key, left, right) && childCategory == leftType
      ensures ok ==> 0 < goodSlot < numSlots && Cells()[goodSlot] == Some(Slot(key, right)) && Cells()[goodSlot - 1].Some?
      ensures ok && |old(Slots())| <= 1 ==> goodSlot == 1
      ensures ok && |old(Slots())| > 1 ==>
                (exists e :: 0 < e < numSlots && old(Cells())[e] == None && (forall i :: 0 <= i < e ==> old(Cells())[i].Some?)
                   && SameUsed(Cells(), (old(Cells())[..e] + old(Cells())[e + 1..])[..goodSlot] + [Some(Slot(key, right))]
                                      + (old(Cells())[..e] + old(Cells())[e + 1..])[goodSlot..]))
    {
      hide IsSlotUsed, CellsOf, Gather, Pages.InsertEntry, SameUsed;
      ghost var before, cells := Slots(), Cells();
      goodSlot := 0;
      if childCategory == RootPtr {
        if leftType != rightType {
          return false, 0;
        }
        childCategory := leftType;
      } else if !(leftType == childCategory && rightType == childCategory) {
        return false, 0;
      }
      FirstEntryFits(before, key, left, right);
      var empty := GetNumEmptySlots();
      if empty == numSlots - 1 {
        InsertFirst(key, left, right);
        return true, 1;
      }
      var emptySlot := FirstEmptySlot();
      if emptySlot == -1 {
        return false, 0;
      }
      var lessOrEqKey;
      ok, lessOrEqKey := MatchChildren(key, left, right);
      if ok {
        SameUsedAt(Cells(), cells);
        ghost var matched := Cells();
        goodSlot := InsertAfterMatch(key, right, emptySlot, lessOrEqKey);
        SameUsedMoved(matched, cells, emptySlot, goodSlot, Slot(key, right));
      }
    }

    /** deleteEntry of the entry with a record id, with its right child
        (deleteKeyAndRightChild) or its left child (deleteKeyAndLeftChild); not ok when the
        record id names another page or an unused slot. */
    method DeleteEntry(rid: RecordId, deleteRightChild: bool) returns (ok: bool)
      requires Valid() && (rid.pageId == pid ==> 0 < rid.slot < numSlots)
      modifies header, children
      ensures Valid() && (ok <==> rid.pageId == pid && old(Cells())[rid.slot].Some?)
      ensures ok ==> var c := |Gather(old(Cells())[..rid.slot])|;
                && 0 < c < |old(Slots())| && old(Slots())[c] == Slot(old(keys[rid.slot]), old(children[rid.slot]))
                && Slots() == if deleteRightChild then RemoveAt(old(Slots()), c) else DeleteLeft(old(Slots()), c)
      ensures ok && !deleteRightChild ==> var c, slots := |Gather(old(Cells())[..rid.slot])|, old(Slots());
                0 < c < |slots| && Slots() == RemoveAt(slots[c - 1 := Slot(slots[c - 1].key, slots[c].child)], c)
      ensures ok ==> Cells()[rid.slot] == None && forall i :: 0 <= i < numSlots && i != rid.slot ==> (Cells()[i].Some? <==> old(Cells())[i].Some?)
      ensures !ok ==> Slots() == old(Slots())
    {
      hide IsSlotUsed, CellsOf, Gather, DeleteLeft, RemoveAt;
      ok := rid.pageId == pid && Used(rid.slot);
      if !ok {
        return;
      }
      var slot := rid.slot;
      ghost var cells := Cells();
      ghost var c := |Gather(cells[..slot])|;
      UsedMeansFirst(cells, slot);
      GatherClear(cells, slot);
      RemoveAtIs(Slots(), c);
      if deleteRightChild {
        Mark(slot, false);
      } else {
        var i := slot - 1;
        while !Used(i)
          decreases i
          invariant 0 <= i < slot && Cells() == cells && forall j :: i < j < slot ==> cells[j] == None
        {
          i := i - 1;
        }
        PreviousPlace(cells, i, slot);
        DeleteLeftIs(Slots(), c, keys[i], children[slot]);
        RenameChild(i, children[slot]);
        GatherClear(Cells(), slot);
        SamePlace(cells, i, slot, Slot(keys[i], children[slot]));
        Mark(slot, false);
      }
    }

    /** updateEntry of the entry with a record id; not ok when one of its assertions fails. */
    method UpdateEntry(rid: RecordId, key: int, left: nat, right: nat) returns (ok: bool)
      requires Valid() && (rid.pageId == pid ==> 0 < rid.slot < numSlots)
      modifies keys, children
      ensures ok ==> rid.pageId == pid && old(Cells())[rid.slot].Some?
      ensures rid.pageId == pid && old(Cells())[rid.slot].Some? ==> var c := |Gather(old(Cells())[..rid.slot])|;
                && 0 < c < |old(Slots())|
                && (ok <==> Pages.UpdateEntry(old(Slots()), c, key, left, right).Some?)
                && (ok ==> Valid() && Slots() == Pages.UpdateEntry(old(Slots()), c, key, left, right).value)
      ensures rid.pageId == pid && old(Cells())[rid.slot].Some? ==> var c, slots := |Gather(old(Cells())[..rid.slot])|, old(Slots());
                && 0 < c < |slots|
                && (ok <==> (c > 1 ==> slots[c - 1].key <= key) && (c + 1 < |slots| ==> key <= slots[c + 1].key))
                && (ok ==> Slots() == slots[c - 1 := Slot(slots[c - 1].key, left)][c := Slot(key, right)])
    {
      hide IsSlotUsed, CellsOf, Gather;
      if rid.pageId != pid || !Used(rid.slot) {
        return false;
      }
      var slot := rid.slot;
      ghost var cells := Cells();
      ghost var c := |Gather(cells[..slot])|;
      UsedMeansFirst(cells, slot);
      GatherPlace(cells, slot);
      var i := slot + 1;
      while i < numSlots && !Used(i)
        invariant slot < i <= numSlots && forall j :: slot < j < i ==> cells[j] == None
      {
        i := i + 1;
      }
      GatherFrom(cells, slot + 1, i);
      if i < numSlots && !(keys[i] >= key) {
        return false;
      }
      i := slot - 1;
      while !Used(i)
        decreases i
        invariant 0 <= i < slot && forall j :: i < j < slot ==> cells[j] == None
      {
        i := i - 1;
      }
      PreviousPlace(cells, i, slot);
      PlaceZero(cells, i);
      if !(i == 0 || keys[i] <= key) {
        return false;
      }
      RenameChild(i, left);
      ghost var renamed := Cells();
      SamePlace(cells, i, slot, Slot(keys[i], left));
      GatherSet(renamed, slot, Slot(key, right));
      Store(slot, Slot(key, right));
      ok := true;
    }

    /** The steps of the iterator: the next used slot from a slot on, or numSlots. */
    method NextUsed(from: nat) returns (slot: nat)
      requires Valid() && 0 < from <= numSlots
      ensures from <= slot <= numSlots && (slot < numSlots ==> Cells()[slot] == Some(Slot(keys[slot], children[slot])))
      ensures |Gather(Cells()[..slot])| == |Gather(Cells()[..from])|
      ensures slot == numSlots ==> |Slots()| == |Gather(Cells()[..from])|
    {
      hide IsSlotUsed, CellsOf, Gather;
      slot := from;
      ghost var cells := Cells();
      while slot < numSlots && !Used(slot)
        invariant from <= slot <= numSlots && forall j :: from <= j < slot ==> cells[j] == None
      {
        slot := slot + 1;
      }
      GatherUpTo(cells, slot, from);
      assert cells[..numSlots] == cells;
    }

    /** The steps of the reverse iterator: the last used slot before a slot, or -1. */
    method PreviousUsed(before: nat) returns (slot: int)
      requires Valid() && before <= numSlots
      ensures -1 <= slot < before && (slot >= 0 ==> Cells()[slot] == Some(Slot(keys[slot], children[slot])))
      ensures |Gather(Cells()[..before])| == if slot == -1 then 0 else |Gather(Cells()[..slot])| + 1
    {
      hide IsSlotUsed, CellsOf, Gather;
      slot := before - 1;
      ghost var cells := Cells();
      while slot >= 0 && !Used(slot)
        invariant -1 <= slot < before && forall j :: slot < j < before ==> cells[j] == None
      {
        slot := slot - 1;
      }
      GatherUpTo(cells, before, slot + 1);
      if slot >= 0 {
        GatherNext(cells, slot);
      } else {
        GatherEmpty(cells[..0]);
      }
    }

    /** Where the reverse iterator starts: the last used slot and the one before it. */
    method LastSlots() returns (right: nat, left: int)
      requires Valid() && Slots() != []
      ensures -1 <= left < right < numSlots && (left == -1 <==> |Slots()| == 1)
      ensures Cells()[right] == Some(Slot(keys[right], children[right])) && |Gather(Cells()[..right])| == |Slots()| - 1
      ensures Slots()[|Slots()| - 1] == Slot(keys[right], children[right])
      ensures left >= 0 ==> Cells()[left].Some? && |Gather(Cells()[..left])| == |Slots()| - 2
      ensures left >= 0 ==> Slots()[|Slots()| - 2] == Slot(keys[left], children[left])
    {
      hide IsSlotUsed, CellsOf, Gather;
      ghost var cells := Cells();
      assert cells[..numSlots] == cells;
      right := PreviousUsed(numSlots);
      GatherPlace(cells, right);
      left := PreviousUsed(right);
      if left >= 0 {
        GatherPlace(cells, left);
      }
    }
  }

  lemma FirstCell(cells: seq<Option<Slot>>)
    requires cells != []
    ensures Gather(cells[..1]) == if cells[0].Some? then [cells[0].value] else []
    ensures Gather(cells) == [] ==> cells[0] == None
  {
    assert cells[..1] == [cells[0]];
    GatherOne(cells[0]);
    GatherAt(cells, 0);
  }

  lemma GatherEmpty(cells: seq<Option<Slot>>)
    requires cells == []
    ensures Gather(cells) == []
  {
  }

  /** With slot 0 in use, only slot 0 is at place 0. */
  lemma PlaceZero(cells: seq<Option<Slot>>, i: nat)
    requires i < |cells|
    ensures i == 0 ==> |Gather(cells[..i])| == 0
    ensures i > 0 && cells[0].Some? ==> |Gather(cells[..i])| > 0
  {
    if i > 0 {
      assert cells[..i] == [cells[0]] + cells[1..i];
      GatherAppend([cells[0]], cells[1..i]);
      GatherOne(cells[0]);
    }
  }

  lemma MatchesIs(x: Slot, left: nat, right: nat)
    ensures Matches(x, left, right) <==> x.child == left || x.child == right
  {
  }

  lemma RenamedIs(x: Slot, left: nat, right: nat)
    ensures Renamed(x, left, right) == if x.child == right then Slot(x.key, left) else x
  {
  }

  /** Writing what is there changes nothing. */
  lemma GatherSame(cells: seq<Option<Slot>>, i: nat)
    requires i < |cells| && cells[i].Some?
    ensures var x := |Gather(cells[..i])|;
            x < |Gather(cells)| && Gather(cells)[x := cells[i].value] == Gather(cells)
  {
    GatherPlace(cells, i);
  }

  /** A page with at most one used slot uses slot 0. */
  lemma OnlyFirst(cells: seq<Option<Slot>>)
    requires |cells| >= 2 && |Gather(cells)| <= 1 && (Gather(cells) != [] ==> cells[0].Some?)
    ensures forall i :: 1 <= i < |cells| ==> cells[i] == None
    ensures Gather(cells) == if cells[0].Some? then [cells[0].value] else []
  {
    GatherAt(cells, 0);
    assert cells[..0] == [];
    forall i | 1 <= i < |cells|
      ensures cells[i] == None
    {
      if cells[i].Some? {
        GatherAt(cells[1..], i - 1);
      }
    }
    GatherNone(cells[1..]);
  }

  lemma TwoCells(x: Slot, y: Slot, rest: seq<Option<Slot>>)
    requires forall i :: 0 <= i < |rest| ==> rest[i] == None
    ensures Gather([Some(x), Some(y)] + rest) == [x, y]
  {
    GatherAppend([Some(x), Some(y)], rest);
    GatherTwo(Some(x), Some(y));
    GatherNone(rest);
  }

  /** A page without entries takes any entry. */
  lemma FirstEntryFits(slots: seq<Slot>, key: int, left: nat, right: nat)
    ensures |slots| <= 1 ==> Pages.InsertEntry(slots, key, left, right).Some?
  {
  }

  lemma UsedMeansFirst(cells: seq<Option<Slot>>, i: nat)
    requires 0 < i < |cells| && cells[i].Some? && (Gather(cells) != [] ==> cells[0].Some?)
    ensures cells[0].Some? && |Gather(cells[..i])| > 0
  {
    GatherPlace(cells, i);
    PlaceZero(cells, i);
  }

  lemma RemoveAtIs(slots: seq<Slot>, c: nat)
    requires c < |slots|
    ensures RemoveAt(slots, c) == slots[..c] + slots[c + 1..]
  {
  }

  /** Taking a key with its left child: the slot before it is given the right child. */
  lemma DeleteLeftIs(slots: seq<Slot>, c: nat, key: int, child: nat)
    requires 0 < c < |slots| && slots[c - 1].key == key && slots[c].child == child
    ensures var renamed := slots[c - 1 := Slot(key, child)];
            DeleteLeft(slots, c) == renamed[..c] + renamed[c + 1..]
  {
  }

  /** The used slot before a slot has the place before its place. */
  lemma PreviousPlace(cells: seq<Option<Slot>>, i: nat, slot: nat)
    requires i < slot < |cells| && cells[i].Some? && forall j :: i < j < slot ==> cells[j] == None
    ensures |Gather(cells[..slot])| == |Gather(cells[..i])| + 1
    ensures |Gather(cells[..i])| < |Gather(cells)| && Gather(cells)[|Gather(cells[..i])|] == cells[i].value
  {
    GatherUpTo(cells, slot, i + 1);
    GatherNext(cells, i);
    GatherPlace(cells, i);
  }

  /** Changing a used slot before a slot does not change the place of the slot. */
  lemma SamePlace(cells: seq<Option<Slot>>, i: nat, slot: nat, x: Slot)
    requires i < slot < |cells| && cells[i].Some?
    ensures |Gather(cells[i := Some(x)][..slot])| == |Gather(cells[..slot])|
  {
    assert cells[i := Some(x)][..slot] == cells[..slot][i := Some(x)];
    assert cells[..slot][..i] == cells[..i];
    GatherSet(cells[..slot], i, x);
  }

  // ------------------------------------------------------------------ iterators

  /** The entries of a page from the first key on, each with the children on its two sides. */
  class BTreeInternalPageIterator {
    const page: BTreeInternalPage
    var curEntry: nat
    var prevChildId: nat
    var currChildId: nat

    /** The place of the current slot among the used ones. */
    ghost function Place(): nat
      requires page.Shape() && curEntry <= page.numSlots
      reads this, page.header, page.keys, page.children
    {
      |Gather(page.Cells()[..curEntry])|
    }

    /** The iterator is at an entry, with its two children, or at the end. */
    ghost predicate Valid()
      reads this, page.header, page.keys, page.children
    {
      && page.Valid() && 0 < curEntry <= page.numSlots
      && (curEntry == page.numSlots ==> Place() >= |page.Slots()|)
      && (curEntry < page.numSlots ==>
            && page.Cells()[curEntry].Some? && 0 < Place() < |page.Slots()| && page.Slots()[Place()] == Slot(page.keys[curEntry], page.children[curEntry])
            && currChildId == page.Slots()[Place()].child && prevChildId == page.Slots()[Place() - 1].child)
    }

    /** begin: the first used slot from 1 on. */
    constructor (page: BTreeInternalPage)
      requires page.Valid() && page.Slots() != []
      ensures this.page == page && Valid() && Place() == 1
      ensures curEntry == page.numSlots <==> |page.Slots()| == 1
    {
      hide IsSlotUsed, CellsOf, Gather;
      ghost var cells := page.Cells();
      FirstCell(cells);
      var slot := page.NextUsed(1);
      this.page, curEntry := page, slot;
      prevChildId, currChildId := page.children[0], if slot < page.numSlots then page.children[slot] else 0;
      if slot < page.numSlots {
        GatherPlace(cells, slot);
      }
      GatherPlace(cells, 0);
      GatherEmpty(cells[..0]);
    }

    /** operator*. */
    method Entry() returns (key: int, left: nat, right: nat, rid: RecordId)
      requires Valid() && curEntry < page.numSlots
      ensures Slot(key, right) == page.Slots()[Place()] && left == page.Slots()[Place() - 1].child
      ensures rid.pageId == page.pid && 0 < rid.slot < page.numSlots && page.Cells()[rid.slot].Some?
      ensures |Gather(page.Cells()[..rid.slot])| == Place()
    {
      return page.keys[curEntry], prevChildId, currChildId, RecordId(page.pid, curEntry);
    }

    /** operator++. */
    method Next()
      requires Valid() && curEntry < page.numSlots
      modifies this
      ensures Valid() && Place() == old(Place()) + 1
      ensures curEntry == page.numSlots <==> Place() == |page.Slots()|
    {
      hide IsSlotUsed, CellsOf, Gather;
      ghost var cells := page.Cells();
      GatherNext(cells, curEntry);
      GatherPlace(cells, curEntry);
      prevChildId := currChildId;
      curEntry := page.NextUsed(curEntry + 1);
      if curEntry < page.numSlots {
        currChildId := page.children[curEntry];
        GatherPlace(cells, curEntry);
      }
    }
  }

  /** The entries of a page from the last key on. */
  class BTreeInternalPageReverseIterator {
    const page: BTreeInternalPage
    var leftSlot: int
    var rightSlot: int
    var leftChildId: nat
    var rightChildId: nat

    ghost function Place(): nat
      requires page.Shape() && 0 <= rightSlot < page.numSlots
      reads this, page.header, page.keys, page.children
    {
      |Gather(page.Cells()[..rightSlot])|
    }

    /** The right slot is used, and the left slot is the used one before it, or -1 at the end. */
    ghost predicate Valid()
      reads this, page.header, page.keys, page.children
    {
      && page.Valid() && -1 <= leftSlot < rightSlot < page.numSlots
      && page.Cells()[rightSlot].Some? && Place() < |page.Slots()|
      && page.Slots()[Place()] == Slot(page.keys[rightSlot], page.children[rightSlot])
      && rightChildId == page.Slots()[Place()].child
      && (leftSlot == -1 <==> Place() == 0)
      && (leftSlot >= 0 ==> page.Cells()[leftSlot].Some? && leftChildId == page.Slots()[Place() - 1].child &&
                            |Gather(page.Cells()[..leftSlot])| == Place() - 1)
    }

    /** rbegin: the last key with the children on its two sides. */
    constructor (page: BTreeInternalPage)
      requires page.Valid() && page.Slots() != []
      ensures this.page == page && Valid() && Place() == |page.Slots()| - 1
    {
      hide IsSlotUsed, CellsOf, Gather;
      var right, left := page.LastSlots();
      this.page, rightSlot, leftSlot := page, right, left;
      rightChildId, leftChildId := page.children[right], if left >= 0 then page.children[left] else 0;
    }

    method Entry() returns (key: int, left: nat, right: nat, rid: RecordId)
      requires Valid() && leftSlot >= 0
      ensures Slot(key, right) == page.Slots()[Place()] && left == page.Slots()[Place() - 1].child
      ensures rid.pageId == page.pid && 0 < rid.slot < page.numSlots && page.Cells()[rid.slot].Some?
      ensures |Gather(page.Cells()[..rid.slot])| == Place()
    {
      return page.keys[rightSlot], leftChildId, rightChildId, RecordId(page.pid, rightSlot);
    }

    /** operator++. */
    method Next()
      requires Valid() && leftSlot >= 0
      modifies this
      ensures Valid() && Place() == old(Place()) - 1
    {
      hide IsSlotUsed, CellsOf, Gather;
      ghost var cells := page.Cells();
      GatherPlace(cells, leftSlot);
      rightChildId, rightSlot := leftChildId, leftSlot;
      leftSlot := page.PreviousUsed(leftSlot);
      if leftSlot >= 0 {
        leftChildId := page.children[leftSlot];
        GatherPlace(cells, leftSlot);
      }
    }
  }
}
