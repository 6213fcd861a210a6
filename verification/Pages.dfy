/** The values a B+ tree file stores, and what the page operations mean on them.

    A page here is the abstract value of a page object: the used slots of a
    slotted page, in slot order, without its gaps.  LeafPage.dfy and
    InternalPage.dfy prove that the in-place page code computes these values. */
module Pages {

  /** A tuple: the value of its key field and the other fields. */
  datatype Tuple = Tuple(key: int, payload: seq<int>)

  /** A used slot of an internal page: a key and the child to its right.  The key
      of the first slot of a page is not used: a page with m keys has m+1 children. */
  datatype Slot = Slot(key: int, child: nat)

  /** A page of a table. */
  datatype PageId = PageId(table: int, number: nat)

  /** Where a tuple or an entry is stored. */
  datatype RecordId = RecordId(pageId: PageId, slot: nat)

  datatype PageType = RootPtr | Internal | Leaf | Header

  /** A page number of 0 stands for a null sibling, header or root and, as a parent,
      for the root pointer page (which is page 0). */
  datatype Page =
    | RootPtrPage(root: nat, header: nat, rootCategory: PageType)
    | LeafPage(parent: nat, left: nat, right: nat, tuples: seq<Tuple>)
    | InternalPage(parent: nat, childCategory: PageType, slots: seq<Slot>)
    | HeaderPage(next: nat, prev: nat, used: seq<bool>)

  type Store = map<nat, Page>

  datatype Option<+T> = None | Some(value: T)

  predicate IsTreePage(page: Page) {
    page.LeafPage? || page.InternalPage?
  }

  /** setParentId. */
  function WithParent(page: Page, parent: nat): Page {
    match page
    case LeafPage(_, left, right, tuples) => LeafPage(parent, left, right, tuples)
    case InternalPage(_, category, slots) => InternalPage(parent, category, slots)
    case _ => page
  }

  /** What a new page of a category holds. */
  function EmptyPage(category: PageType, numSlots: nat): Page {
    match category
    case RootPtr => RootPtrPage(0, 0, RootPtr)
    case Leaf => LeafPage(0, 0, 0, [])
    case Internal => InternalPage(0, RootPtr, [])
    case Header => HeaderPage(0, 0, seq(numSlots, _ => false))
  }

  function SlotsOf(s: Store, p: nat): seq<Slot> {
    if p in s && s[p].InternalPage? then s[p].slots else []
  }

  function TuplesOf(s: Store, p: nat): seq<Tuple> {
    if p in s && s[p].LeafPage? then s[p].tuples else []
  }

  function ParentOf(s: Store, p: nat): nat {
    if p in s && IsTreePage(s[p]) then s[p].parent else 0
  }

  // ---------------------------------------------------------------- leaf pages

  ghost predicate SortedTuples(ts: seq<Tuple>) {
    forall i, j :: 0 <= i <= j < |ts| ==> ts[i].key <= ts[j].key
  }

  /** How many tuples at the front have a key of at most key. */
  function Rank(ts: seq<Tuple>, key: int): (r: nat)
    ensures r <= |ts|
    ensures forall i :: 0 <= i < r ==> ts[i].key <= key
    ensures r < |ts| ==> key < ts[r].key
  {
    if ts == [] || key < ts[0].key then 0 else 1 + Rank(ts[1..], key)
  }

  /** insertTuple on a leaf page: after every tuple whose key is at most t's. */
  function SortedInsert(ts: seq<Tuple>, t: Tuple): seq<Tuple> {
    var r := Rank(ts, t.key);
    ts[..r] + [t] + ts[r..]
  }

  lemma InsertionKeepsSorted(ts: seq<Tuple>, r: nat, t: Tuple)
    requires SortedTuples(ts) && r <= |ts|
    requires forall i :: 0 <= i < r ==> ts[i].key <= t.key
    requires forall i :: r <= i < |ts| ==> t.key <= ts[i].key
    ensures SortedTuples(ts[..r] + [t] + ts[r..])
  {
  }

  lemma SortedInsertSorted(ts: seq<Tuple>, t: Tuple)
    requires SortedTuples(ts)
    ensures SortedTuples(SortedInsert(ts, t))
  {
    InsertionKeepsSorted(ts, Rank(ts, t.key), t);
  }

  lemma SortedInsertElements(ts: seq<Tuple>, t: Tuple)
    ensures multiset(SortedInsert(ts, t)) == multiset(ts) + multiset{t}
  {
    var r := Rank(ts, t.key);
    assert ts == ts[..r] + ts[r..];
  }

  /** A page after insertTuple of one tuple after another. */
  function PutAll(us: seq<Tuple>, ts: seq<Tuple>): (r: seq<Tuple>)
    ensures |r| == |us| + |ts|
  {
    if ts == [] then us else SortedInsert(PutAll(us, ts[..|ts| - 1]), ts[|ts| - 1])
  }

  lemma PutNext(us: seq<Tuple>, ts: seq<Tuple>, t: Tuple)
    ensures PutAll(us, ts + [t]) == SortedInsert(PutAll(us, ts), t)
  {
    assert (ts + [t])[..|ts|] == ts;
  }

  function Backward(ts: seq<Tuple>): (r: seq<Tuple>)
    ensures |r| == |ts| && forall i :: 0 <= i < |r| ==> r[i] == ts[|ts| - 1 - i]
  {
    seq(|ts|, i requires 0 <= i < |ts| => ts[|ts| - 1 - i])
  }

  lemma BackwardNext(ts: seq<Tuple>, h: nat)
    requires 0 < h <= |ts|
    ensures Backward(ts[h - 1..]) == Backward(ts[h..]) + [ts[h - 1]]
  {
  }

  /** The tuples with a key, in their order. */
  function WithKey(ts: seq<Tuple>, key: int): seq<Tuple> {
    if ts == [] then []
    else WithKey(ts[..|ts| - 1], key) + if ts[|ts| - 1].key == key then [ts[|ts| - 1]] else []
  }

  lemma {:induction false} WithKeyAppend(a: seq<Tuple>, b: seq<Tuple>, key: int)
    ensures WithKey(a + b, key) == WithKey(a, key) + WithKey(b, key)
  {
    if b == [] {
      assert a + b == a;
    } else {
      WithKeyAppend(a, b[..|b| - 1], key);
      assert (a + b)[..|a + b| - 1] == a + b[..|b| - 1];
    }
  }

  lemma {:induction false} AllWithKey(ts: seq<Tuple>, key: int)
    requires forall i :: 0 <= i < |ts| ==> ts[i].key == key
    ensures WithKey(ts, key) == ts
  {
    if ts != [] {
      AllWithKey(ts[..|ts| - 1], key);
    }
  }

  lemma {:induction false} NoneWithKey(ts: seq<Tuple>, key: int)
    requires forall i :: 0 <= i < |ts| ==> ts[i].key != key
    ensures WithKey(ts, key) == []
  {
    if ts != [] {
      NoneWithKey(ts[..|ts| - 1], key);
    }
  }

  /** On a page they are next to each other. */
  lemma WithKeyRun(ts: seq<Tuple>, key: int, a: nat, b: nat)
    requires a <= b <= |ts| && forall i :: 0 <= i < |ts| ==> (ts[i].key == key <==> a <= i < b)
    ensures WithKey(ts, key) == ts[a..b]
  {
    assert ts == ts[..a] + ts[a..b] + ts[b..];
    WithKeyAppend(ts[..a] + ts[a..b], ts[b..], key);
    WithKeyAppend(ts[..a], ts[a..b], key);
    NoneWithKey(ts[..a], key);
    AllWithKey(ts[a..b], key);
    NoneWithKey(ts[b..], key);
  }

  /** insertTuple puts a tuple after those with its key, and leaves the order of tuples with
      another key. */
  lemma PutAfterEqual(ts: seq<Tuple>, t: Tuple, key: int)
    requires SortedTuples(ts)
    ensures WithKey(SortedInsert(ts, t), key) == WithKey(ts, key) + if t.key == key then [t] else []
  {
    hide WithKey, SortedInsert, SortedTuples;
    var j := SortedInsertPlace(ts, t);
    assert ts == ts[..j] + ts[j..];
    WithKeyAppend(ts[..j], ts[j..], key);
    WithKeyAppend(ts[..j] + [t], ts[j..], key);
    WithKeyNext(ts[..j], t, key);
    if t.key == key {
      NoneWithKey(ts[j..], key);
    }
  }

  /** So tuples moved to a page one after another keep their order among equal keys, and come
      after those that were there. */
  lemma {:induction false} PutInOrder(us: seq<Tuple>, ts: seq<Tuple>, key: int)
    requires SortedTuples(us)
    ensures SortedTuples(PutAll(us, ts)) && multiset(PutAll(us, ts)) == multiset(us) + multiset(ts)
    ensures WithKey(PutAll(us, ts), key) == WithKey(us, key) + WithKey(ts, key)
  {
    hide PutAll, WithKey, SortedInsert, SortedTuples;
    if ts == [] {
      NothingPut(us, key);
    } else {
      var front, t := ts[..|ts| - 1], ts[|ts| - 1];
      PutInOrder(us, front, key);
      SortedInsertSorted(PutAll(us, front), t);
      SortedInsertElements(PutAll(us, front), t);
      PutAfterEqual(PutAll(us, front), t, key);
      PutNext(us, front, t);
      WithKeyNext(front, t, key);
      assert ts == front + [t];
      assert multiset(ts) == multiset(front) + multiset{t};
    }
  }

  lemma NothingPut(us: seq<Tuple>, key: int)
    ensures PutAll(us, []) == us && WithKey([], key) == []
  {
  }

  lemma WithKeyNext(ts: seq<Tuple>, t: Tuple, key: int)
    ensures WithKey(ts + [t], key) == WithKey(ts, key) + if t.key == key then [t] else []
  {
    assert (ts + [t])[..|ts|] == ts;
  }

  // ------------------------------------------------------------ internal pages

  predicate HasChild(slots: seq<Slot>, p: nat) {
    exists c :: 0 <= c < |slots| && slots[c].child == p
  }

  /** The first slot from i on whose child is left or right. */
  function FirstMatch(slots: seq<Slot>, left: nat, right: nat, i: nat): (r: nat)
    requires i <= |slots|
    ensures i <= r <= |slots|
    ensures forall c :: i <= c < r ==> slots[c].child != left && slots[c].child != right
    ensures r < |slots| ==> slots[r].child == left || slots[r].child == right
    decreases |slots| - i
  {
    if i == |slots| || slots[i].child == left || slots[i].child == right then i
    else FirstMatch(slots, left, right, i + 1)
  }

  /** The end of the run of slots from i on whose children are all left or right. */
  function RunEnd(slots: seq<Slot>, left: nat, right: nat, i: nat): (r: nat)
    requires i <= |slots|
    ensures i <= r <= |slots|
    ensures forall c :: i <= c < r ==> slots[c].child == left || slots[c].child == right
    ensures r < |slots| ==> slots[r].child != left && slots[r].child != right
    decreases |slots| - i
  {
    if i < |slots| && (slots[i].child == left || slots[i].child == right)
    then RunEnd(slots, left, right, i + 1) else i
  }

  /** The slots with every child in [a..b) that is right replaced by left. */
  function Relabel(slots: seq<Slot>, left: nat, right: nat, a: nat, b: nat): (r: seq<Slot>)
    ensures |r| == |slots|
  {
    seq(|slots|, i requires 0 <= i < |slots| =>
      if a <= i < b && slots[i].child == right then Slot(slots[i].key, left) else slots[i])
  }

  /** insertEntry on the used slots of an internal page; None where the code's
      assertions fail. */
  function InsertEntry(slots: seq<Slot>, key: int, left: nat, right: nat): Option<seq<Slot>> {
    if |slots| <= 1 then Some([Slot(if slots == [] then 0 else slots[0].key, left), Slot(key, right)])
    else
      var a := FirstMatch(slots, left, right, 0);
      var b := RunEnd(slots, left, right, a);
      if a == b then None
      else if exists i :: a <= i < b && i > 0 && key < slots[i].key then None
      else if b < |slots| && slots[b].key < key then None
      else
        var relabelled := Relabel(slots, left, right, a, b);
        Some(relabelled[..b] + [Slot(key, right)] + relabelled[b..])
  }

  ghost predicate DistinctChildren(slots: seq<Slot>) {
    forall i, j :: 0 <= i < j < |slots| ==> slots[i].child != slots[j].child
  }

  ghost predicate SortedSlots(slots: seq<Slot>) {
    forall i, j :: 1 <= i <= j < |slots| ==> slots[i].key <= slots[j].key
  }

  /** deleteKeyAndLeftChild of the entry in slot c. */
  function DeleteLeft(slots: seq<Slot>, c: nat): seq<Slot>
    requires 0 < c < |slots|
  {
    slots[..c - 1] + [Slot(slots[c - 1].key, slots[c].child)] + slots[c + 1..]
  }

  /** updateEntry of the entry in slot c; None where the code's assertions fail. */
  function UpdateEntry(slots: seq<Slot>, c: nat, key: int, left: nat, right: nat): Option<seq<Slot>>
    requires 0 < c < |slots|
  {
    if c + 1 < |slots| && slots[c + 1].key < key then None
    else if c > 1 && key < slots[c - 1].key then None
    else Some(slots[c - 1 := Slot(slots[c - 1].key, left)][c := Slot(key, right)])
  }

  /** An entry goes after the first run of slots, a to b, whose children are left or right: it
      fails exactly when its key is out of order there, and children that are right become
      left. */
  lemma InsertEntryRun(slots: seq<Slot>, key: int, left: nat, right: nat, a: nat, b: nat)
    requires 2 <= |slots| && a < b <= |slots|
    requires forall i :: 0 <= i < a ==> slots[i].child != left && slots[i].child != right
    requires forall i :: a <= i < b ==> slots[i].child == left || slots[i].child == right
    requires b < |slots| ==> slots[b].child != left && slots[b].child != right
    ensures InsertEntry(slots, key, left, right) == None <==>
              (exists i :: a <= i < b && i > 0 && key < slots[i].key) || (b < |slots| && slots[b].key < key)
    ensures InsertEntry(slots, key, left, right).Some? ==>
              var r := InsertEntry(slots, key, left, right).value;
              && |r| == |slots| + 1 && r[b] == Slot(key, right)
              && (forall i :: 0 <= i < a ==> r[i] == slots[i])
              && (forall i :: a <= i < b ==> r[i] == Slot(slots[i].key, left))
              && (forall i :: b < i < |r| ==> r[i] == slots[i - 1])
  {
    hide FirstMatch, RunEnd;
    FirstMatchAt(slots, left, right, 0, a);
    RunEndAt(slots, left, right, a, b);
  }

  lemma {:induction false} FirstMatchAt(slots: seq<Slot>, left: nat, right: nat, i: nat, a: nat)
    requires i <= a <= |slots| && forall c :: i <= c < a ==> slots[c].child != left && slots[c].child != right
    requires a < |slots| ==> slots[a].child == left || slots[a].child == right
    ensures FirstMatch(slots, left, right, i) == a
    decreases a - i
  {
    if i < a {
      FirstMatchAt(slots, left, right, i + 1, a);
    }
  }

  lemma {:induction false} RunEndAt(slots: seq<Slot>, left: nat, right: nat, i: nat, b: nat)
    requires i <= b <= |slots| && forall c :: i <= c < b ==> slots[c].child == left || slots[c].child == right
    requires b < |slots| ==> slots[b].child != left && slots[b].child != right
    ensures RunEnd(slots, left, right, i) == b
    decreases b - i
  {
    if i < b {
      RunEndAt(slots, left, right, i + 1, b);
    }
  }

  /** The first entry of a page. */
  lemma InsertEntryFirst(slots: seq<Slot>, key: int, left: nat, right: nat)
    requires |slots| <= 1
    ensures var r := InsertEntry(slots, key, left, right);
            r.Some? && |r.value| == 2 && r.value[0].child == left && r.value[1] == Slot(key, right)
  {
  }

  /** Where a tuple goes on a leaf page: after every key that is not above its own. */
  lemma SortedInsertPlace(ts: seq<Tuple>, t: Tuple) returns (j: nat)
    requires SortedTuples(ts)
    ensures j <= |ts| && SortedInsert(ts, t) == ts[..j] + [t] + ts[j..]
    ensures forall i :: 0 <= i < j ==> ts[i].key <= t.key
    ensures forall i :: j <= i < |ts| ==> t.key < ts[i].key
  {
    j := Rank(ts, t.key);
  }

  /** The entry's left child is on the page: key and right child go after it. */
  lemma InsertEntryAfter(slots: seq<Slot>, key: int, c: nat, right: nat)
    requires 2 <= |slots| && c < |slots| && DistinctChildren(slots) && !HasChild(slots, right)
    requires c > 0 ==> slots[c].key <= key
    requires c + 1 < |slots| ==> key <= slots[c + 1].key
    ensures InsertEntry(slots, key, slots[c].child, right) ==
            Some(slots[..c + 1] + [Slot(key, right)] + slots[c + 1..])
  {
    var left := slots[c].child;
    assert FirstMatch(slots, left, right, 0) == c;
    assert RunEnd(slots, left, right, c) == c + 1;
    assert Relabel(slots, left, right, c, c + 1) == slots;
  }

  /** The entry's right child is the first child of the page: left child and key go before it. */
  lemma InsertEntryBefore(slots: seq<Slot>, key: int, left: nat)
    requires 2 <= |slots| && DistinctChildren(slots) && !HasChild(slots, left)
    requires key <= slots[1].key
    ensures InsertEntry(slots, key, left, slots[0].child) ==
            Some([Slot(slots[0].key, left), Slot(key, slots[0].child)] + slots[1..])
  {
    var right := slots[0].child;
    assert FirstMatch(slots, left, right, 0) == 0;
    assert RunEnd(slots, left, right, 0) == 1;
    var relabelled := Relabel(slots, left, right, 0, 1);
    assert relabelled == [Slot(slots[0].key, left)] + slots[1..];
    assert relabelled[..1] + [Slot(key, right)] + relabelled[1..] ==
           [Slot(slots[0].key, left), Slot(key, right)] + slots[1..];
  }

  /** Neither child is on the page: the assertion fails. */
  lemma InsertEntryNoMatch(slots: seq<Slot>, key: int, left: nat, right: nat)
    requires 2 <= |slots| && !HasChild(slots, left) && !HasChild(slots, right)
    ensures InsertEntry(slots, key, left, right) == None
  {
    assert FirstMatch(slots, left, right, 0) == |slots|;
  }
}
