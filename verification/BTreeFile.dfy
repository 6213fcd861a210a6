/** A B+ tree file: search, insertion with page splits, deletion with redistribution
    and merging, and scans, over a store of numbered pages. */
module BTreeFiles {
  import opened Pages
  import opened Paging
  import opened Levels
  import opened Trees
  import opened Merging
  import opened Borrowing
  import opened Leaves
  import opened LeafPairs
  import opened Separators

  /** The loop of findLeafPage over the entries of a page: the left child of the first
      entry whose key is not below f, else the right child of the last entry. */
  method ChooseChild(slots: seq<Slot>, f: Option<int>) returns (c: nat)
    requires 2 <= |slots|
    ensures c < |slots| && (f == None ==> c == 0)
    ensures f.Some? ==> forall e :: 1 <= e <= c ==> slots[e].key < f.value
    ensures f.Some? && c + 1 < |slots| ==> f.value <= slots[c + 1].key
  {
    var e := 1;
    while e < |slots|
      invariant 1 <= e <= |slots|
      invariant e > 1 ==> f.Some?
      invariant f.Some? ==> forall x :: 1 <= x < e ==> slots[x].key < f.value
    {
      if f == None || f.value <= slots[e].key {
        return e - 1;
      }
      e := e + 1;
    }
    return |slots| - 1;
  }

  /** The loop of handleMinOccupancyPage: the entries on the left and on the right of the
      first child that is page p; 0 stands for null. */
  method EntriesAround(slots: seq<Slot>, p: nat) returns (leftEntry: nat, rightEntry: nat)
    requires HasChild(slots, p)
    ensures leftEntry < |slots| && slots[leftEntry].child == p
    ensures forall d :: 0 <= d < leftEntry ==> slots[d].child != p
    ensures rightEntry == if leftEntry + 1 < |slots| then leftEntry + 1 else 0
  {
    leftEntry, rightEntry := 0, 0;
    var e := 1;
    while e < |slots|
      invariant 1 <= e <= |slots|
      invariant leftEntry == 0 || (leftEntry == e - 1 && slots[leftEntry].child == p)
      invariant leftEntry == 0 ==> forall d :: 1 <= d < e ==> slots[d].child != p
      invariant forall d :: 0 <= d < e - 1 ==> slots[d].child != p
    {
      if slots[e - 1].child == p {
        rightEntry := e;
        break;
      } else if slots[e].child == p {
        leftEntry := e;
      }
      e := e + 1;
    }
  }

  class BTreeFile {
    const store: PageStore
    const leafCap: nat   // getMaxTuples of a leaf page
    const nodeCap: nat   // getMaxEntries of an internal page
    ghost var tree: Tree

    ghost function State(): State
      reads this, store
    {
      Trees.State(store.pages, store.inUse, tree)
    }

    constructor (leafCap: nat, nodeCap: nat, numSlots: nat)
      requires numSlots > 0
      ensures this.leafCap == leafCap && this.nodeCap == nodeCap
      ensures fresh(store) && store.Empty() && tree == Tree([], map[])
    {
      this.leafCap, this.nodeCap := leafCap, nodeCap;
      store := new PageStore(numSlots);
      tree := Tree([], map[]);
    }

    // ---------------------------------------------------------------- page updates

    /** updateParentPointer. */
    method UpdateParentPointer(pid: nat, child: nat)
      requires store.Valid() && child in store.inUse && child in store.pages && IsTreePage(store.pages[child])
      modifies store`pages, store`dirty
      ensures store.Valid()
      ensures store.dirty == old(store.dirty) + (if old(store.pages)[child].parent == pid then {} else {child})
      ensures store.pages == old(store.pages)[child := WithParent(old(store.pages)[child], pid)]
    {
      var page := store.GetPage(child, ReadOnly);
      if page.parent != pid {
        page := store.GetPage(child, ReadWrite);
        store.Put(child, WithParent(page, pid));
      }
    }

    /** updateParentPointers: every child of page pid names it as its parent. */
    method UpdateParentPointers(pid: nat)
      requires store.Valid() && pid in store.pages && store.pages[pid].InternalPage?
      requires 2 <= |store.pages[pid].slots|
      requires forall c :: 0 <= c < |store.pages[pid].slots| ==>
                 var child := store.pages[pid].slots[c].child;
                 child != pid && child in store.inUse && child in store.pages && IsTreePage(store.pages[child])
      modifies store`pages, store`dirty
      ensures store.Valid()
      ensures store.dirty == old(store.dirty) + Strays(old(store.pages), pid, SlotsOf(old(store.pages), pid))
      ensures Reparented(old(store.pages), store.pages, pid, SlotsOf(old(store.pages), pid))
    {
      hide Consistent, Tracked;
      var page := store.GetPage(pid, ReadOnly);
      var slots := page.slots;
      var i := 0;
      while i < |slots|
        invariant 0 <= i <= |slots|
        invariant store.Valid()
        invariant store.dirty == old(store.dirty) + Strays(old(store.pages), pid, slots[..i])
        invariant Reparented(old(store.pages), store.pages, pid, slots[..i])
      {
        ghost var before := store.pages;
        UpdateParentPointer(pid, slots[i].child);
        assert slots[..i + 1] == slots[..i] + [slots[i]];
        StrayAgain(old(store.pages), before, pid, slots[..i], slots[i]);
        StraysNext(old(store.pages), pid, slots[..i], slots[i]);
        ReparentedNext(old(store.pages), before, store.pages, pid, slots[..i], slots[i]);
        i := i + 1;
      }
      assert slots[..i] == slots;
    }

    /** deleteKeyAndRightChild: takes slot c, not the first, off page q. */
    method DeleteKeyAndRightChild(q: nat, c: nat)
      requires store.Valid() && q in store.inUse && q in store.dirty && q in store.pages
      requires store.pages[q].InternalPage? && 0 < c < |store.pages[q].slots|
      modifies store`pages
      ensures store.Valid()
      ensures store.pages == old(store.pages)[q := old(store.pages)[q].(slots := RemoveAt(old(store.pages)[q].slots, c))]
    {
      var page := store.pages[q];
      store.Put(q, page.(slots := page.slots[..c] + page.slots[c + 1..]));
    }

    /** insertEntry on page q; not ok when one of its assertions fails. */
    method InsertEntryInto(q: nat, key: int, left: nat, right: nat, category: PageType) returns (ok: bool)
      requires store.Valid() && q in store.inUse && q in store.dirty && q in store.pages
      requires store.pages[q].InternalPage? && nodeCap > 0
      modifies store`pages
      ensures store.Valid()
      ensures ok <==> && old(store.pages)[q].childCategory in {RootPtr, category}
                      && |old(store.pages)[q].slots| <= nodeCap
                      && InsertEntry(old(store.pages)[q].slots, key, left, right).Some?
      ensures ok ==> store.pages == old(store.pages)[q := InternalPage(old(store.pages)[q].parent, category,
                       InsertEntry(old(store.pages)[q].slots, key, left, right).value)]
      ensures !ok ==> store.pages == old(store.pages)
    {
      var page := store.pages[q];
      var slots := InsertEntry(page.slots, key, left, right);
      ok := page.childCategory in {RootPtr, category} && |page.slots| <= nodeCap && slots.Some?;
      if ok {
        store.Put(q, InternalPage(page.parent, category, slots.value));
      }
    }

    // ---------------------------------------------------------------- splitting pages

    /** Puts (key, r) into the parent of p, to the right of p: getParentWithEmptySlots,
        insertEntry and updateParentPointers, the last steps of both splits. */
    method AddToParent(p: nat, r: nat, key: int, ghost k: nat, ghost j: nat) returns (ok: bool)
      requires store.Valid() && Adding(State(), k, nodeCap, j, key, p, r)
      modifies this`tree, store
      ensures ok <==> !WouldTie(old(store.pages), p, key, nodeCap, |old(tree.levels)| - 1 - k)
      ensures ok ==> store.Valid() && Added(old(State()), State(), k, nodeCap, j, key, r)
      ensures ok ==> old(store.dirty) <= store.dirty && store.base == old(store.base)
      decreases |tree.levels| - k, 2
    {
      hide Above, Progress, NewRoot, WouldTie, Consistent, Tracked, Adding, Added, Fitting, ParentReady, Entering;
      ghost var a := State();
      store.InPages();
      AddingFacts(a, k, nodeCap, j, key, p, r);
      WouldTieStep(store.pages, p, key, nodeCap, |tree.levels| - 1 - k);
      var page := store.GetPage(p, ReadOnly);
      var category := if page.LeafPage? then Leaf else Internal;
      var parent;
      ok, parent := GetParentWithEmptySlots(p, page.parent, key, k, j);
      if ok {
        if page.parent == 0 {
          PutUnderNewRoot(p, r, key, parent, category, k, a);
        } else {
          ok := PutUnderParent(p, r, key, parent, category, k, j, a, page.parent);
        }
      }
    }

    /** The first entry of a new root. */
    method PutUnderNewRoot(p: nat, r: nat, key: int, parent: nat, category: PageType, ghost k: nat, ghost a: Trees.State)
      requires store.Valid() && parent in store.dirty && NewRoot(a, State(), parent)
      requires Adding(a, k, nodeCap, 0, key, p, r) && a.tree.levels[k] == [Slot(0, p)] && k + 1 == |a.tree.levels|
      requires category == if k == 0 then Leaf else Internal
      modifies this`tree, store`pages, store`dirty
      ensures store.Valid() && Added(a, State(), k, nodeCap, 0, key, r)
      ensures old(store.dirty) <= store.dirty
    {
      hide Above, Consistent, Tracked, Adding, Added, Reparented;
      ghost var a1 := State();
      AddingAtRoot(a, k, nodeCap, key, p, r);
      var ok := InsertEntryInto(parent, key, p, r, category);
      ghost var s1 := store.pages;
      UpdateParentPointers(parent);
      tree := PushRoot(InsertNode(tree, k, 0, key, r), parent);
      NewRootDone(a, a1, s1, State(), k, nodeCap, key, parent, p, r);
    }

    /** insertEntry into the page getParentWithEmptySlots returned, and updateParentPointers. */
    method PutUnderParent(p: nat, r: nat, key: int, parent: nat, category: PageType,
                          ghost k: nat, ghost j: nat, ghost a: Trees.State, ghost q: nat) returns (ok: bool)
      requires store.Valid() && parent in store.dirty
      requires Adding(a, k, nodeCap, j, key, p, r) && ParentReady(a, State(), k, nodeCap, j, key, q, parent)
      requires category == if k == 0 then Leaf else Internal
      modifies this`tree, store`pages, store`dirty
      ensures ok <==> !(|SlotsOf(a.pages, q)| == nodeCap + 1 && key == Pushed(a.pages, q, nodeCap) &&
                        HasChild(LeftHalf(SlotsOf(a.pages, q), Cut(nodeCap)), p))
      ensures ok ==> store.Valid() && Added(a, State(), k, nodeCap, j, key, r)
      ensures old(store.dirty) <= store.dirty
    {
      hide Above, Consistent, Tracked, Reparented, InsertEntry, Entering, Adding, Added, ParentReady;
      ghost var b := State();
      store.InPages();
      EnteringReady(a, b, k, nodeCap, j, key, p, q, parent, r);
      ghost var slots := EnteringSlots(b, k, nodeCap, j, key, parent, p, r);
      ok := InsertEntryInto(parent, key, p, r, category);
      if ok {
        ghost var s1 := store.pages;
        UpdateParentPointers(parent);
        tree := InsertNode(tree, k, j, key, r);
        EnteringDone(a, b, s1, State(), k, nodeCap, j, q, parent, p, key, r);
      }
    }

    /** A new internal page becomes the root above the old one. */
    method AddRoot() returns (parent: nat)
      requires store.Valid() && store.pages[0].root in store.inUse
      modifies store
      ensures store.Valid() && NewRoot(old(State()), State(), parent)
      ensures old(store.dirty) <= store.dirty && store.base == old(store.base) && parent in store.dirty
    {
      hide Consistent, Tracked, Bits, Unused;
      store.InPages();
      parent := store.GetEmptyPage(Internal);
      var rootPtr := store.GetPage(0, ReadWrite);
      var prevRootId := rootPtr.root;
      store.SetRoot(parent, Internal);
      var prevRoot := store.GetPage(prevRootId, ReadWrite);
      store.Put(prevRootId, WithParent(prevRoot, parent));
    }

    /** getParentWithEmptySlots: a page that can take the separator field of page p, node
        j of level k.  A new root has no slot yet. */
    method GetParentWithEmptySlots(ghost p: nat, parentId: nat, field: int, ghost k: nat, ghost j: nat)
      returns (ok: bool, parent: nat)
      requires store.Valid() && Fitting(State(), k, nodeCap, j, field, p) && parentId == ParentOf(store.pages, p)
      modifies this`tree, store
      ensures ok ==> store.Valid() && old(store.dirty) <= store.dirty && store.base == old(store.base)
      ensures ok ==> parent in store.dirty
      ensures parentId == 0 ==> ok && NewRoot(old(State()), State(), parent)
      ensures parentId != 0 ==>
                (ok <==> !(|SlotsOf(old(store.pages), parentId)| == nodeCap + 1 &&
                           WouldTie(old(store.pages), parentId, Pushed(old(store.pages), parentId, nodeCap), nodeCap,
                                    |old(tree.levels)| - 2 - k)))
      ensures ok && parentId != 0 ==> ParentReady(old(State()), State(), k, nodeCap, j, field, parentId, parent)
      decreases |tree.levels| - k, 1
    {
      hide Above, WouldTie, Progress, Consistent, Tracked, ParentReady, SplitResult, NewRoot, Fitting, Pushed;
      ghost var a := State();
      store.InPages();
      ok := true;
      if parentId == 0 {
        FittingRoot(a, k, nodeCap, j, field, p);
        parent := AddRoot();
      } else {
        ghost var u, c := FittingParent(a, k, nodeCap, j, field, p);
        var page := store.GetPage(parentId, ReadWrite);
        parent := parentId;
        if |page.slots| == nodeCap + 1 {
          ok, parent := SplitInternalPage(parentId, field, k, u);
          if ok {
            ParentReadySplit(a, State(), k, nodeCap, j, field, p, u, c, parentId, parent);
          }
        } else {
          ParentReadyNow(a, k, nodeCap, j, field, p, u, c);
        }
      }
    }

    /** splitInternalPage: node u of level k + 1, a full page q, is cut in two; the page
        for an entry with key field is chosen. */
    method SplitInternalPage(q: nat, field: int, ghost k: nat, ghost u: nat) returns (ok: bool, chosen: nat)
      requires store.Valid() && Full(State(), k, nodeCap, u, q) && q in store.dirty
      modifies this`tree, store
      ensures ok <==> !WouldTie(old(store.pages), q, Pushed(old(store.pages), q, nodeCap), nodeCap, |old(tree.levels)| - 2 - k)
      ensures ok ==> store.Valid() && SplitResult(old(State()), State(), k, nodeCap, q, field, chosen)
      ensures ok ==>
                && k + 1 < |tree.levels| && |tree.levels[k + 1]| == |old(tree.levels)[k + 1]| + 1
                && var slots, c, r := SlotsOf(old(store.pages), q), nodeCap / 2 + 1, tree.levels[k + 1][u + 1].child;
                   && r !in old(store.inUse)
                   && SlotsOf(store.pages, q) == slots[..c]
                   && SlotsOf(store.pages, r) == [Slot(0, slots[c].child)] + slots[c + 1..]
                   && tree.levels[k + 1] == InsertAfter(old(tree.levels)[k + 1], u, Slot(slots[c].key, r))
                   && chosen == if field < slots[c].key then q else r
      ensures ok ==> var up := old(tree.levels)[k + 1];
                forall x :: 0 <= x < |up| && x != u ==> SlotsOf(store.pages, up[x].child) == SlotsOf(old(store.pages), up[x].child)
      ensures ok ==> old(store.dirty) <= store.dirty && store.base == old(store.base) && chosen in store.dirty
      decreases |tree.levels| - k, 0
    {
      hide Above, Progress, Consistent, Tracked, WouldTie, Halved, DistinctChildren, SortedSlots, SplitResult,
           Cut, Adding, Added, Pushed, Full, InsertAfter, LeftHalf, RightHalf, HasChild, SlotsOf, ParentOf, Strays;
      ghost var a := State();
      FullNode(a, k, nodeCap, u, q);
      var r, index := CutPage(q);
      ghost var a1 := State();
      SplitPrepared(a, a1, k, nodeCap, u, q, r, index, |tree.levels| - 2 - k);
      ok := AddToParent(q, r, index, k + 1, u);
      if ok {
        store.InPages();
        SplitFinish(a, a1, State(), k, nodeCap, u, q, r, field);
      }
      chosen := if field < index then q else r;
    }

    /** Cuts a full page in two: the right half goes to a new page r, whose children are
        updated, and index is the key that belongs to neither half. */
    method CutPage(q: nat) returns (r: nat, index: int)
      requires store.Valid() && nodeCap >= 3 && |SlotsOf(store.pages, q)| == nodeCap + 1
      requires q in store.inUse && q in store.dirty && q in store.pages && store.pages[q].InternalPage?
      requires DistinctChildren(SlotsOf(store.pages, q)) && SortedSlots(SlotsOf(store.pages, q))
      requires store.pages[q].childCategory != RootPtr
      requires forall d :: 0 <= d < |SlotsOf(store.pages, q)| ==>
                 var child := SlotsOf(store.pages, q)[d].child;
                 child != q && child in store.inUse && child in store.pages && IsTreePage(store.pages[child])
      modifies store
      ensures store.Valid() && Halved(old(State()), State(), nodeCap, q, r)
      ensures index == Pushed(old(store.pages), q, nodeCap)
      ensures var slots, c := SlotsOf(old(store.pages), q), nodeCap / 2 + 1;
              && index == slots[c].key && r !in old(store.inUse)
              && SlotsOf(store.pages, q) == slots[..c]
              && SlotsOf(store.pages, r) == [Slot(0, slots[c].child)] + slots[c + 1..]
      ensures old(store.dirty) <= store.dirty && store.base == old(store.base) && r in store.dirty
    {
      hide Consistent, Tracked, DistinctChildren, SortedSlots, Reparented, Halved, Cut, RightHalf;
      ghost var a, slots := State(), SlotsOf(store.pages, q);
      store.InPages();
      CutBounds(nodeCap);
      RightHalfSlots(slots, Cut(nodeCap));
      r, index := ShareSlots(q);
      ghost var s1 := store.pages;
      UpdateParentPointers(r);
      HalvedBuilt(a, s1, State(), nodeCap, q, r);
      HalvedIs(a, State(), nodeCap, q, r);
    }

    method ShareSlots(q: nat) returns (r: nat, index: int)
      requires store.Valid() && nodeCap >= 3 && |SlotsOf(store.pages, q)| == nodeCap + 1
      requires q in store.inUse && q in store.dirty && q in store.pages && store.pages[q].InternalPage?
      requires DistinctChildren(SlotsOf(store.pages, q)) && SortedSlots(SlotsOf(store.pages, q))
      modifies store
      ensures store.Valid() && SlotsShared(old(State()), store.pages, nodeCap, q, r)
      ensures store.inUse == old(store.inUse) + {r}
      ensures index == Pushed(old(store.pages), q, nodeCap)
      ensures old(store.dirty) <= store.dirty && store.base == old(store.base) && r in store.dirty
    {
      hide LeftHalf;
      hide Consistent, Tracked, DistinctChildren, SortedSlots, Cut, Bits, Unused, RightHalf;
      ghost var slots, cut := SlotsOf(store.pages, q), Cut(nodeCap);
      store.InPages();
      var page := store.GetPage(q, ReadWrite);
      var middleIndex := (|page.slots| - 1 + 1) / 2 - 1;
      CutBounds(nodeCap);
      LeftHalfShorter(slots, cut);
      r := store.GetEmptyPage(Internal);
      MoveEntriesRight(q, r, page.childCategory, middleIndex);
      index := TakeLastEntry(q);
    }

    /** The loop of splitInternalPage: count entries go from the end of page q to the
        empty page r, last first. */
    method MoveEntriesRight(q: nat, r: nat, category: PageType, count: nat)
      requires store.Valid() && q != r && q in store.inUse && q in store.dirty && r in store.inUse && r in store.dirty
      requires q in store.pages && store.pages[q].InternalPage? && store.pages[q].childCategory == category
      requires r in store.pages && store.pages[r] == InternalPage(0, RootPtr, [])
      requires DistinctChildren(store.pages[q].slots) && SortedSlots(store.pages[q].slots)
      requires 1 <= count && count + 2 <= |store.pages[q].slots| <= nodeCap + 1
      modifies store`pages
      ensures store.Valid()
      ensures var slots := old(store.pages[q].slots);
              PairChanged(old(store.pages), store.pages, q, old(store.pages)[q].(slots := slots[..|slots| - count]),
                          r, InternalPage(0, category, RightHalf(slots, |slots| - 1 - count)))
    {
      hide Consistent, Tracked, RightHalf, InsertEntry, DistinctChildren, SortedSlots;
      var page := store.pages[q];
      ghost var slots := page.slots;
      var i := 0;
      assert slots[..|slots|] == slots;
      while i < count
        invariant 0 <= i <= count && store.Valid()
        invariant PairChanged(old(store.pages), store.pages, q, page.(slots := slots[..|slots| - i]),
                    r, if i == 0 then InternalPage(0, RootPtr, [])
                       else InternalPage(0, category, RightHalf(slots, |slots| - 1 - i)))
      {
        ghost var cut := |slots| - 1 - i;
        var left := store.pages[q].slots;
        var last := |left| - 1;
        MoveEntryRight(slots, cut);
        DeleteKeyAndRightChild(q, last);
        assert RemoveAt(left, last) == slots[..cut];
        var ok := InsertEntryInto(r, left[last].key, left[last - 1].child, left[last].child, category);
        i := i + 1;
      }
    }

    method TakeLastEntry(q: nat) returns (key: int)
      requires store.Valid() && q in store.inUse && q in store.dirty && q in store.pages
      requires store.pages[q].InternalPage? && 2 <= |store.pages[q].slots|
      modifies store`pages
      ensures store.Valid()
      ensures var slots := old(store.pages[q].slots);
              && key == slots[|slots| - 1].key
              && store.pages == old(store.pages)[q := old(store.pages)[q].(slots := slots[..|slots| - 1])]
    {
      var slots := store.pages[q].slots;
      key := slots[|slots| - 1].key;
      DeleteKeyAndRightChild(q, |slots| - 1);
      assert RemoveAt(slots, |slots| - 1) == slots[..|slots| - 1];
    }

    // ---------------------------------------------------------------- splitting leaves

    /** insertTuple on leaf page p, which has room. */
    method AddTuple(p: nat, t: Tuple)
      requires store.Valid() && p in store.inUse && p in store.dirty && p in store.pages && store.pages[p].LeafPage?
      requires |store.pages[p].tuples| < leafCap
      modifies store`pages
      ensures store.Valid()
      ensures store.pages == old(store.pages)[p := old(store.pages)[p].(tuples := SortedInsert(old(store.pages)[p].tuples, t))]
    {
      var page := store.pages[p];
      store.Put(p, page.(tuples := SortedInsert(page.tuples, t)));
    }

    /** The last tuple of page p goes to page r. */
    method MoveLastTuple(p: nat, r: nat) returns (t: Tuple)
      requires store.Valid() && p != r && {p, r} <= store.inUse && {p, r} <= store.dirty && {p, r} <= store.pages.Keys
      requires store.pages[p].LeafPage? && store.pages[r].LeafPage? && store.pages[p].tuples != []
      requires |store.pages[r].tuples| < leafCap
      modifies store`pages
      ensures store.Valid()
      ensures var ts, us := old(store.pages)[p].tuples, old(store.pages)[r].tuples;
              && t == ts[|ts| - 1]
              && PairChanged(old(store.pages), store.pages, p, old(store.pages)[p].(tuples := ts[..|ts| - 1]),
                             r, old(store.pages)[r].(tuples := SortedInsert(us, t)))
    {
      var page := store.pages[p];
      var last := |page.tuples| - 1;
      t := page.tuples[last];
      store.Put(p, page.(tuples := page.tuples[..last]));
      AddTuple(r, t);
    }

    /** The steps of splitLeafPage before the parent is looked for: a new page r, the right
        neighbour of page p, takes the last tuples of p, from the one with key index on. */
    method CutLeaf(p: nat, ghost j: nat) returns (r: nat, index: int)
      requires store.Valid() && Legal(State(), leafCap, nodeCap, 0) && leafCap >= 2
      requires j < |tree.levels[0]| && tree.levels[0][j].child == p && p in store.dirty
      requires |TuplesOf(store.pages, p)| == leafCap
      modifies store
      ensures store.Valid() && LeafHalved(old(State()), State(), j, leafCap / 2, r)
      ensures index == TuplesOf(old(store.pages), p)[leafCap / 2].key
      ensures var ts := TuplesOf(old(store.pages), p);
              && TuplesOf(store.pages, p) == ts[..leafCap / 2]
              && TuplesOf(store.pages, r) == PutAll([], Backward(ts[leafCap / 2..])) && r !in old(store.inUse)
      ensures old(store.dirty) <= store.dirty && store.base == old(store.base) && r in store.dirty
    {
      hide Consistent, Tracked, Legal, SortedTuples, LeafHalved, LeafShared, TuplesMoved, LeafLinkedIn, PutAll, Backward;
      ghost var a := State();
      store.InPages();
      LegalRoot(a, leafCap, nodeCap, 0);
      LeafNext(a, leafCap, nodeCap, 0, j);
      var page := store.GetPage(p, ReadWrite);
      r := LinkLeaf(p);
      LinkedInPages(a, store.pages, p, r);
      ghost var s1 := store.pages;
      var middleIndex := (|page.tuples| + 1) / 2 - 1;
      assert SortedTuples(store.pages[r].tuples) by { EmptySorted(); }
      index := MoveLastTuples(p, r, middleIndex + 1);
      LeafSharedNow(a, s1, store.pages, p, leafCap / 2, r);
      LeafHalvedBuilt(a, State(), leafCap, nodeCap, j, p, leafCap / 2, r);
      HalvedInTwo(a, State(), p, leafCap, j, r);
    }

    /** A new leaf is put into the sibling chain after page p. */
    method LinkLeaf(p: nat) returns (r: nat)
      requires store.Valid() && p in store.inUse && p in store.dirty && p in store.pages && store.pages[p].LeafPage?
      requires var next := store.pages[p].right;
               next != 0 ==> next != p && next in store.inUse && next in store.pages && store.pages[next].LeafPage?
      modifies store
      ensures store.Valid() && LeafLinkedIn(old(State()), store.pages, p, r) && store.inUse == old(store.inUse) + {r}
      ensures old(store.dirty) <= store.dirty && store.base == old(store.base) && r in store.dirty
    {
      hide Consistent, Tracked, Bits, Unused, LeafLinkedIn;
      ghost var a := State();
      store.InPages();
      r := store.GetEmptyPage(Leaf);
      ghost var s := store.pages;
      var page := store.GetPage(p, ReadWrite);
      var nextPageId := page.right;
      if nextPageId != 0 {
        var next := store.GetPage(nextPageId, ReadWrite);
        store.Put(nextPageId, next.(left := r));
      }
      var rightPage := store.GetPage(r, ReadWrite);
      store.Put(r, rightPage.(right := nextPageId, left := p));
      store.Put(p, page.(right := r));
      LeafLinkedNow(a, s, store.pages, p, r);
    }

    /** splitLeafPage: leaf j, a full page p, is cut in two; the page where field belongs is
        chosen. */
    method SplitLeafPage(p: nat, field: int, ghost j: nat) returns (ok: bool, chosen: nat, ghost i: nat)
      requires store.Valid() && Legal(State(), leafCap, nodeCap, 0) && leafCap >= 2 && nodeCap >= 3
      requires Belongs(tree.levels[0], j, field) && tree.levels[0][j].child == p && p in store.dirty
      requires |TuplesOf(store.pages, p)| == leafCap
      modifies this`tree, store
      ensures ok <==> !WouldTie(old(store.pages), p, TuplesOf(old(store.pages), p)[leafCap / 2].key, nodeCap, |old(tree.levels)| - 1)
      ensures ok ==> store.Valid() && LeafSplitResult(old(State()), State(), leafCap, nodeCap, i, chosen, field)
      ensures ok ==> tree.levels != []
      ensures ok ==>
                && p in store.pages && store.pages[p].LeafPage?
                && var ts, h, r := TuplesOf(old(store.pages), p), leafCap / 2, store.pages[p].right;
                   && r !in old(store.inUse)
                   && TuplesOf(store.pages, p) == ts[..h]
                   && TuplesOf(store.pages, r) == PutAll([], Backward(ts[h..]))
                   && tree.levels[0] == InsertAfter(old(tree.levels)[0], j, Slot(ts[h].key, r))
                   && chosen == if field < ts[h].key then p else r
      ensures ok ==> forall x :: 0 <= x < |old(tree.levels)[0]| && x != j ==>
                TuplesOf(store.pages, old(tree.levels)[0][x].child) == TuplesOf(old(store.pages), old(tree.levels)[0][x].child)
      ensures ok && StrictLevel(old(tree.levels)[0]) ==>
                (StrictLevel(tree.levels[0]) <==> !EqualCut(old(store.pages), old(tree.levels)[0], j, leafCap))
      ensures ok ==> old(store.dirty) <= store.dirty && store.base == old(store.base) && chosen in store.dirty
    {
      hide Consistent, Tracked, Legal, LeafHalved, Adding, Added, WouldTie, LeafSplitResult, LeafCut, Contents, SortedTuples, StrictLevel, EqualCut,
           PutAll, Backward, InsertAfter;
      ghost var a := State();
      LegalRoot(a, leafCap, nodeCap, 0);
      var r, index := CutLeaf(p, j);
      ghost var a1 := State();
      SplitLeafPrepared(a, a1, leafCap, nodeCap, j, leafCap / 2, p, r, index, |tree.levels| - 1);
      ok := AddToParent(p, r, index, 0, j);
      if ok {
        store.InPages();
        SplitLeafFinish(a, a1, State(), leafCap, nodeCap, j, p, r, index);
        LeafInTwo(a, State(), p, leafCap, j, r);
        LeafSplitChosen(a, State(), leafCap, nodeCap, j, p, r, index, field);
        LegalRoot(State(), leafCap, nodeCap, 0);
        if StrictLevel(a.tree.levels[0]) {
          StrictAfterCut(a, leafCap, nodeCap, j, r);
        }
      }
      chosen, i := if field < index then p else r, if field < index then j else j + 1;
    }

    // ---------------------------------------------------------------- searching

    /** findLeafPage: the left-most leaf that can hold the key f, or the first leaf when
        there is no key; the pages on the way are fetched with permission perm. */
    method FindLeafPage(pid: nat, category: PageType, perm: Permissions, f: Option<int>, ghost k: nat, ghost j: nat)
      returns (leaf: nat, ghost i: nat)
      requires store.Valid() && Searching(store.pages, tree, nodeCap, k, j, pid, category, f)
      modifies store`dirty
      ensures store.Valid()
      ensures store.dirty == old(store.dirty) + (if perm == ReadWrite then WayFor(store.pages, pid, f, k) else {})
      ensures Found(tree, i, leaf, f) && leaf == LeafFor(store.pages, pid, f, k)
      ensures tree.levels != [] && i < |tree.levels[0]| && tree.levels[0][i].child == leaf && (f == None ==> i == 0)
      ensures f.Some? ==> forall x :: 1 <= x <= i ==> tree.levels[0][x].key < f.value
      ensures f.Some? ==> forall x :: i < x < |tree.levels[0]| ==> f.value <= tree.levels[0][x].key
      decreases k
    {
      hide Consistent, Tracked, Searching, Found, Offset, ChildFor;
      SearchPage(store.pages, tree, nodeCap, k, j, pid, category, f);
      if category == Leaf {
        var page := store.GetPage(pid, perm);
        leaf, i := pid, j;
        FoundBetween(tree, i, leaf, f);
      } else {
        var page := store.GetPage(pid, perm);
        var c := ChooseChild(page.slots, f);
        ChildForIs(page.slots, f, 1, c);
        SearchStep(store.pages, tree, nodeCap, k - 1, j, pid, f, c);
        leaf, i := FindLeafPage(page.slots[c].child, page.childCategory, perm, f, k - 1,
                                Offset(store.pages, tree.levels[k], j) + c);
      }
    }

    // ---------------------------------------------------------------- inserting

    /** What the file keeps between operations. */
    ghost predicate Valid()
      reads this, store
    {
      && leafCap >= 2 && nodeCap >= 3
      && if store.Empty() then tree == Tree([], map[])
         else store.Valid() && Legal(State(), leafCap, nodeCap, 0)
    }

    /** The tuples of the file, in the order of its leaves. */
    ghost function Tuples(): seq<Tuple>
      reads this, store
    {
      if tree.levels == [] then [] else Contents(store.pages, tree.levels[0])
    }

    /** Every separator is the first key on its right, as in a file that never lost a tuple. */
    ghost predicate Anchored()
      reads this, store
    {
      tree.levels == [] || Leaves.Anchored(store.pages, tree.levels[0])
    }

    /** getRootPtrPage, and the root of a new file. */
    method RootPage(ghost key: int) returns (rootId: nat, category: PageType)
      requires Valid()
      modifies this`tree, store
      ensures store.Valid() && Legal(State(), leafCap, nodeCap, 0) && tree.levels != []
      ensures rootId == store.pages[0].root && category == store.pages[0].rootCategory
      ensures Tuples() == old(Tuples()) && (old(Anchored()) ==> Anchored())
      ensures InsertTies(store.pages, key, leafCap, nodeCap, |tree.levels|) ==
              InsertTies(old(store.pages), key, leafCap, nodeCap, |old(tree.levels)|)
      ensures LeafHasSpace(store.pages, key, leafCap, |tree.levels|) ==
              LeafHasSpace(old(store.pages), key, leafCap, |old(tree.levels)|)
      ensures CutsAtSeparator(store.pages, key, leafCap, |tree.levels|) ==
              CutsAtSeparator(old(store.pages), key, leafCap, |old(tree.levels)|)
      ensures StrictLevels(old(tree)) ==> StrictLevels(tree)
      ensures old(store.dirty) <= store.dirty
      ensures !old(store.Empty()) ==> State() == old(State()) && store.dirty == old(store.dirty) && store.base == old(store.base)
      ensures old(store.Empty()) ==> store.base.Keys == {0, 1} && 0 in store.dirty && Created(store.pages, rootId, key, leafCap, |tree.levels|)
    {
      hide Consistent, Tracked, Legal, LeafFor, WouldTie, SidesFor;
      ghost var created := store.Empty();
      if !created {
        LegalRoot(State(), leafCap, nodeCap, 0);
      }
      var rootPtr := store.GetRootPtrPage();
      rootId, category := rootPtr.root, rootPtr.rootCategory;
      if rootId == 0 {
        rootId, category := store.numPages, Leaf;
        rootPtr := store.GetPage(0, ReadWrite);
        store.SetRoot(rootId, category);
        tree := Tree([[Slot(0, 1)]], map[1 := 0]);
        assert store.pages == NewRootPages(store.numSlots);
        NewTree(State(), leafCap, nodeCap, store.numSlots);
        NoTieInNewTree(store.numSlots, key, leafCap, nodeCap);
      }
    }

    /** The leaf a tuple belongs in, fetched for writing and split when it is full. */
    method LeafToInsert(field: int, rootId: nat, category: PageType)
      returns (ok: bool, leafPage: nat, ghost i: nat, ghost place: nat)
      requires store.Valid() && Legal(State(), leafCap, nodeCap, 0) && leafCap >= 2 && nodeCap >= 3
      requires rootId == store.pages[0].root && category == store.pages[0].rootCategory
      modifies this`tree, store
      ensures ok <==> !InsertTies(old(store.pages), field, leafCap, nodeCap, |old(tree.levels)|)
      ensures ok ==> store.Valid() && LeafSplitResult(old(State()), State(), leafCap, nodeCap, i, leafPage, field)
      ensures ok ==> tree.levels != [] && old(tree.levels) != []
      ensures ok && StrictLevel(old(tree.levels)[0]) ==>
                (StrictLevel(tree.levels[0]) <==> !CutsAtSeparator(old(store.pages), field, leafCap, |old(tree.levels)|))
      ensures ok ==> old(store.dirty) <= store.dirty && store.base == old(store.base) && leafPage in store.dirty
      ensures LeafHasSpace(old(store.pages), field, leafCap, |old(tree.levels)|) ==>
                leafPage == LeafFor(old(store.pages), rootId, Some(field), |old(tree.levels)| - 1) && State() == old(State())
      ensures ok ==> PlaceFor(old(tree), place, field) && LeafMade(old(State()), State(), leafCap, place, leafPage, field)
      ensures ok && State() == old(State()) ==> store.dirty == old(store.dirty) + {leafPage}
    {
      hide Consistent, Tracked, Legal, Searching, LeafFor, WouldTie, LeafSplitResult, StrictLevel, CutsAtSeparator, SidesFor, Found,
           PutAll, Backward, InsertAfter;
      ghost var a := State();
      SearchRoot(a, leafCap, nodeCap, Some(field));
      leafPage, i := FindLeafPage(rootId, category, ReadOnly, Some(field), |tree.levels| - 1, 0);
      place := i;
      GuidesBelongs(tree, i, leafPage, field);
      LeafPlace(a, leafCap, nodeCap, 0, i);
      CutsExactly(a, leafCap, nodeCap, field, i);
      var page := store.GetPage(leafPage, ReadWrite);
      ok := true;
      if |page.tuples| == leafCap {
        ok, leafPage, i := SplitLeafPage(leafPage, field, i);
      } else {
        LeafHasRoom(a, leafCap, nodeCap, i, leafPage, field);
      }
    }

    /** insertTuple.  Not ok when an assertion of insertEntry fails, on a tie; dirtyPages
        is the write set it returns, and place the leaf whose separators guide to the key. */
    method InsertTuple(t: Tuple) returns (ok: bool, dirtyPages: set<nat>, ghost place: nat)
      requires Valid()
      modifies this`tree, store
      ensures ok <==> !InsertTies(old(store.pages), t.key, leafCap, nodeCap, |old(tree.levels)|)
      ensures ok ==> Valid() && SortedTuples(Tuples())
      ensures ok ==> multiset(Tuples()) == multiset(old(Tuples())) + multiset{t}
      ensures ok && old(Anchored()) ==> Anchored()
      ensures ok && StrictLevels(old(tree)) ==>
                (StrictLevels(tree) <==> !CutsAtSeparator(old(store.pages), t.key, leafCap, |old(tree.levels)|))
      ensures ok && LeafHasSpace(old(store.pages), t.key, leafCap, |old(tree.levels)|) ==> PutInOnce(old(Tuples()), Tuples(), t)
      ensures ok ==> Tracked(store.pages, dirtyPages, old(store.pages))
      ensures ok && old(tree.levels) != [] ==>
                && place < |old(tree.levels)[0]|
                && (forall x :: 1 <= x <= place ==> old(tree.levels)[0][x].key < t.key)
                && (forall x :: place < x < |old(tree.levels)[0]| ==> t.key <= old(tree.levels)[0][x].key)
      ensures ok && old(tree.levels) != [] ==>
                var p := old(tree.levels)[0][place].child;
                var ts := TuplesOf(old(store.pages), p);
                && p in old(store.pages) && old(store.pages)[p].LeafPage? && |ts| <= leafCap
                && (|ts| < leafCap ==>
                      && tree == old(tree) && dirtyPages == {p}
                      && store.pages == old(store.pages)[p := old(store.pages)[p].(tuples := SortedInsert(ts, t))])
      ensures ok && old(tree.levels) != [] && |TuplesOf(old(store.pages), old(tree.levels)[0][place].child)| == leafCap ==>
                var p, h := old(tree.levels)[0][place].child, leafCap / 2;
                var ts := TuplesOf(old(store.pages), p);
                && p in store.pages && store.pages[p].LeafPage? && tree.levels != []
                && var r := store.pages[p].right;
                   && r !in old(store.inUse)
                   && tree.levels[0] == InsertAfter(old(tree.levels)[0], place, Slot(ts[h].key, r))
                   && TuplesOf(store.pages, p) == (if t.key < ts[h].key then SortedInsert(ts[..h], t) else ts[..h])
                   && TuplesOf(store.pages, r) == (if t.key < ts[h].key then PutAll([], Backward(ts[h..]))
                                                   else SortedInsert(PutAll([], Backward(ts[h..])), t))
      ensures ok && old(tree.levels) != [] ==> forall x :: 0 <= x < |old(tree.levels)[0]| && x != place ==>
                TuplesOf(store.pages, old(tree.levels)[0][x].child) == TuplesOf(old(store.pages), old(tree.levels)[0][x].child)
    {
      hide Legal, Contents, InsertTies, Consistent, LeafSplitResult, SortedTuples, Tracked, LeafFor, Leaves.Anchored, PutInOnce,
           StrictLevels, StrictLevel, CutsAtSeparator, SortedInsert, PutAll, Backward, InsertAfter, LeafMade, PlaceFor,
           TuplesOf, SlotsOf, ParentOf, LeafHasSpace;
      dirtyPages, place := {}, 0;
      ghost var created := store.Empty();
      store.Begin();
      var rootId, category := RootPage(t.key);
      ghost var a := State();
      store.InPages();
      var leafPage;
      ghost var i;
      ok, leafPage, i, place := LeafToInsert(t.key, rootId, category);
      if ok {
        ghost var b := State();
        ChosenPage(a, b, leafCap, nodeCap, i, leafPage, t.key);
        var page := store.GetPage(leafPage, ReadWrite);
        AddTuple(leafPage, t);
        TupleInserted(a, b, State(), leafCap, nodeCap, i, leafPage, t);
        PlaceForIs(a.tree, place, t.key);
        TakenWithRoom(a, b, State(), leafCap, nodeCap, place, leafPage, t);
        TakenByHalf(a, b, State(), leafCap, nodeCap, place, leafPage, t);
        TakenNowhereElse(a, b, State(), leafCap, nodeCap, place, leafPage, t);
        StrictFromLeaves(a, leafCap, nodeCap, 0);
        StrictFromLeaves(State(), leafCap, nodeCap, 0);
        assert leafPage in store.pages;
        dirtyPages := store.dirty;
        if created {
          CreatedTracked(store.pages, dirtyPages, store.base);
        }
      }
    }

    // ------------------------------------------------- moving entries between siblings

    /** deleteKeyAndLeftChild: takes the key of slot c and the child before it off page q. */
    method DeleteKeyAndLeftChild(q: nat, c: nat)
      requires store.Valid() && q in store.inUse && q in store.dirty && q in store.pages
      requires store.pages[q].InternalPage? && 0 < c < |store.pages[q].slots|
      modifies store`pages
      ensures store.Valid()
      ensures store.pages == old(store.pages)[q := old(store.pages)[q].(slots := DeleteLeft(old(store.pages)[q].slots, c))]
    {
      var page := store.pages[q];
      store.Put(q, page.(slots := DeleteLeft(page.slots, c)));
    }

    /** A round of stealFromLeftInternalPage: the separator goes to the right page, the last
        entry of the left page takes its place. */
    method RotateRight(page: nat, leftSibling: nat, parent: nat, c: nat, category: PageType, ghost s: Store, ghost n: nat)
      requires store.Valid() && {leftSibling, page, parent} <= store.inUse && {leftSibling, page, parent} <= store.dirty
      requires Movable(s, nodeCap, leftSibling, page, parent, c, category)
      requires Recut(s, store.pages, leftSibling, page, parent, c, n)
      requires 2 <= n && |Joined(s, leftSibling, page, parent, c)| - n >= 2
      requires n <= nodeCap + 1 && |Joined(s, leftSibling, page, parent, c)| - n <= nodeCap
      modifies store`pages
      ensures store.Valid() && Recut(s, store.pages, leftSibling, page, parent, c, n - 1)
    {
      hide Movable, Recut, Joined, InsertEntry, Consistent, Tracked;
      ghost var s1 := store.pages;
      RecutPages(s, s1, nodeCap, leftSibling, page, parent, c, n, category);
      RoundLeft(s, s1, nodeCap, leftSibling, page, parent, c, n, category);
      var leftSlots, rightSlots := store.pages[leftSibling].slots, store.pages[page].slots;
      var last := |leftSlots| - 1;
      var parentKey := store.pages[parent].slots[c].key;
      DeleteKeyAndRightChild(parent, c);
      var ok := InsertEntryInto(page, parentKey, leftSlots[last].child, rightSlots[0].child, category);
      assert ok;
      DeleteKeyAndRightChild(leftSibling, last);
      ok := InsertEntryInto(parent, leftSlots[last].key, leftSibling, page, Internal);
      assert ok;
      RecutAgain(s, s1, store.pages, leftSibling, page, parent, c, n, n - 1);
    }

    /** A round of stealFromRightInternalPage. */
    method RotateLeft(page: nat, rightSibling: nat, parent: nat, c: nat, category: PageType, ghost s: Store, ghost n: nat)
      requires store.Valid() && {page, rightSibling, parent} <= store.inUse && {page, rightSibling, parent} <= store.dirty
      requires Movable(s, nodeCap, page, rightSibling, parent, c, category)
      requires Recut(s, store.pages, page, rightSibling, parent, c, n)
      requires 2 <= n <= nodeCap && |Joined(s, page, rightSibling, parent, c)| - n >= 2
      modifies store`pages
      ensures store.Valid() && Recut(s, store.pages, page, rightSibling, parent, c, n + 1)
    {
      hide Movable, Recut, Joined, InsertEntry, DeleteLeft, Consistent, Tracked, Tail, RemoveAt;
      ghost var s1 := store.pages;
      RecutPages(s, s1, nodeCap, page, rightSibling, parent, c, n, category);
      RoundRight(s, s1, nodeCap, page, rightSibling, parent, c, n, category);
      var leftSlots, rightSlots := store.pages[page].slots, store.pages[rightSibling].slots;
      var parentKey := store.pages[parent].slots[c].key;
      DeleteKeyAndRightChild(parent, c);
      var ok := InsertEntryInto(page, parentKey, leftSlots[|leftSlots| - 1].child, rightSlots[0].child, category);
      assert ok;
      DeleteKeyAndLeftChild(rightSibling, 1);
      ok := InsertEntryInto(parent, rightSlots[1].key, page, rightSibling, Internal);
      assert ok;
      RecutAgain(s, s1, store.pages, page, rightSibling, parent, c, n, n + 1);
    }

    /** stealFromLeftInternalPage: half of the surplus of the left sibling goes to page.  Not
        ok when there is nothing to steal. */
    method StealFromLeftInternalPage(page: nat, leftSibling: nat, parent: nat, c: nat, category: PageType, ghost k: nat)
      returns (ok: bool, ghost n: nat)
      requires store.Valid() && {leftSibling, page, parent} <= store.inUse && {leftSibling, page, parent} <= store.dirty
      requires Movable(store.pages, nodeCap, leftSibling, page, parent, c, category)
      requires c < |SlotsOf(store.pages, parent)| && ChildPages(State(), k, leftSibling, page, parent, c)
      modifies store`pages, store`dirty
      ensures store.Valid() && old(store.dirty) <= store.dirty
      ensures ok <==> |SlotsOf(old(store.pages), leftSibling)| >= |SlotsOf(old(store.pages), page)| + 2
      ensures ok ==> n == |SlotsOf(old(store.pages), leftSibling)| -
                          (|SlotsOf(old(store.pages), leftSibling)| - |SlotsOf(old(store.pages), page)|) / 2
      ensures ok ==> Resliced(old(store.pages), store.pages, leftSibling, page, parent, c, n)
      ensures ok ==> CutAt(old(store.pages), store.pages, leftSibling, page, parent, c, |SlotsOf(old(store.pages), leftSibling)| -
                       (|SlotsOf(old(store.pages), leftSibling)| - |SlotsOf(old(store.pages), page)|) / 2)
    {
      hide Movable, Recut, Joined, Consistent, Tracked, ChildPages, Reparented, Resliced, DistinctChildren, CutAt;
      ghost var a := State();
      MovableSizes(a.pages, nodeCap, leftSibling, page, parent, c, category);
      var few := store.GetPage(page, ReadOnly);
      var many := store.GetPage(leftSibling, ReadOnly);
      var itemsToMove := (|many.slots| - |few.slots|) / 2;
      n := |many.slots|;
      if itemsToMove <= 0 {
        return false, n;
      }
      RecutNone(a.pages, nodeCap, leftSibling, page, parent, c, category);
      while itemsToMove > 0
        modifies store`pages
        invariant 0 <= itemsToMove && n - itemsToMove == |many.slots| - (|many.slots| - |few.slots|) / 2
        invariant n <= |many.slots| && store.Valid() && Recut(a.pages, store.pages, leftSibling, page, parent, c, n)
      {
        RotateRight(page, leftSibling, parent, c, category, a.pages, n);
        n, itemsToMove := n - 1, itemsToMove - 1;
      }
      RecutPages(a.pages, store.pages, nodeCap, leftSibling, page, parent, c, n, category);
      RecutChildren(a, store.pages, k, leftSibling, page, parent, c, n);
      ghost var s1 := store.pages;
      assert SlotsOf(s1, page) == s1[page].slots;
      UpdateParentPointers(page);
      StolenPages(a, s1, State(), k, leftSibling, page, parent, c, n, page);
      ReslicedCut(a.pages, store.pages, leftSibling, page, parent, c, n);
      ok := true;
    }

    /** stealFromRightInternalPage. */
    method StealFromRightInternalPage(page: nat, rightSibling: nat, parent: nat, c: nat, category: PageType, ghost k: nat)
      returns (ok: bool, ghost n: nat)
      requires store.Valid() && {page, rightSibling, parent} <= store.inUse && {page, rightSibling, parent} <= store.dirty
      requires Movable(store.pages, nodeCap, page, rightSibling, parent, c, category)
      requires c < |SlotsOf(store.pages, parent)| && ChildPages(State(), k, page, rightSibling, parent, c)
      modifies store`pages, store`dirty
      ensures store.Valid() && old(store.dirty) <= store.dirty
      ensures ok <==> |SlotsOf(old(store.pages), rightSibling)| >= |SlotsOf(old(store.pages), page)| + 2
      ensures ok ==> n == |SlotsOf(old(store.pages), page)| +
                          (|SlotsOf(old(store.pages), rightSibling)| - |SlotsOf(old(store.pages), page)|) / 2
      ensures ok ==> Resliced(old(store.pages), store.pages, page, rightSibling, parent, c, n)
      ensures ok ==> CutAt(old(store.pages), store.pages, page, rightSibling, parent, c, |SlotsOf(old(store.pages), page)| +
                       (|SlotsOf(old(store.pages), rightSibling)| - |SlotsOf(old(store.pages), page)|) / 2)
    {
      hide Movable, Recut, Joined, Consistent, Tracked, ChildPages, Reparented, Resliced, DistinctChildren, CutAt;
      ghost var a := State();
      MovableSizes(a.pages, nodeCap, page, rightSibling, parent, c, category);
      var few := store.GetPage(page, ReadOnly);
      var many := store.GetPage(rightSibling, ReadOnly);
      var itemsToMove := (|many.slots| - |few.slots|) / 2;
      n := |few.slots|;
      if itemsToMove <= 0 {
        return false, n;
      }
      RecutNone(a.pages, nodeCap, page, rightSibling, parent, c, category);
      while itemsToMove > 0
        modifies store`pages
        invariant 0 <= itemsToMove && n + itemsToMove == |few.slots| + (|many.slots| - |few.slots|) / 2
        invariant |few.slots| <= n && store.Valid() && Recut(a.pages, store.pages, page, rightSibling, parent, c, n)
      {
        RotateLeft(page, rightSibling, parent, c, category, a.pages, n);
        n, itemsToMove := n + 1, itemsToMove - 1;
      }
      RecutPages(a.pages, store.pages, nodeCap, page, rightSibling, parent, c, n, category);
      RecutChildren(a, store.pages, k, page, rightSibling, parent, c, n);
      ghost var s1 := store.pages;
      assert SlotsOf(s1, page) == s1[page].slots;
      UpdateParentPointers(page);
      StolenPages(a, s1, State(), k, page, rightSibling, parent, c, n, page);
      ReslicedCut(a.pages, store.pages, page, rightSibling, parent, c, n);
      ok := true;
    }

    // ------------------------------------------------- merging internal pages

    /** A round of the loop of mergeInternalPages: entry i of the right page, now its first,
        goes to the end of the left page. */
    method MoveFirstEntry(leftPage: nat, rightPage: nat, entries: seq<Slot>, i: nat, category: PageType,
                          ghost s: Store, ghost parentKey: int)
      requires store.Valid() && {leftPage, rightPage} <= store.inUse && {leftPage, rightPage} <= store.dirty
      requires Joinable(s, nodeCap, leftPage, rightPage, parentKey, category)
      requires entries == SlotsOf(s, rightPage) && 1 <= i < |entries|
      requires PartJoined(s, store.pages, leftPage, rightPage, parentKey, i)
      modifies store`pages
      ensures store.Valid() && PartJoined(s, store.pages, leftPage, rightPage, parentKey, i + 1)
    {
      hide PartJoined, Joinable, Join, InsertEntry, DistinctChildren, SortedSlots, Consistent, Tracked;
      ghost var s1 := store.pages;
      PartJoinedPages(s, s1, nodeCap, leftPage, rightPage, parentKey, category, i);
      JoinNow(s, s1, nodeCap, leftPage, rightPage, parentKey, category, i);
      DeleteKeyAndRightChild(rightPage, 1);
      var ok := InsertEntryInto(leftPage, entries[i].key, entries[i - 1].child, entries[i].child, category);
      assert ok;
      JoinNext(s, s1, store.pages, nodeCap, leftPage, rightPage, parentKey, category, i);
    }

    /** The middle of mergeInternalPages: the entries of the right page go to the left page,
        after the entry with key parentKey that was taken off their parent. */
    method JoinPages(leftPage: nat, rightPage: nat, parentKey: int, category: PageType)
      requires store.Valid() && {leftPage, rightPage} <= store.inUse && {leftPage, rightPage} <= store.dirty
      requires Joinable(store.pages, nodeCap, leftPage, rightPage, parentKey, category)
      modifies store`pages
      ensures store.Valid()
      ensures var s := old(store.pages);
              PartJoined(s, store.pages, leftPage, rightPage, parentKey, |SlotsOf(s, rightPage)|)
    {
      hide PartJoined, Joinable, Join, InsertEntry, DistinctChildren, SortedSlots, Consistent, Tracked;
      ghost var s := store.pages;
      JoinStart(s, nodeCap, leftPage, rightPage, parentKey, category);
      var left := store.pages[leftPage].slots;
      var entries := store.pages[rightPage].slots;
      var ok := InsertEntryInto(leftPage, parentKey, left[|left| - 1].child, entries[0].child, category);
      assert ok;
      JoinFirst(s, store.pages, nodeCap, leftPage, rightPage, parentKey, category);
      var i := 1;
      while i < |entries|
        invariant 1 <= i <= |entries| && store.Valid()
        invariant PartJoined(s, store.pages, leftPage, rightPage, parentKey, i)
      {
        MoveFirstEntry(leftPage, rightPage, entries, i, category, s, parentKey);
        i := i + 1;
      }
    }

    /** mergeInternalPages: the right page, node u + 1 of level k + 1, is emptied into the
        left page and freed. */
    method MergeInternalPages(leftPage: nat, rightPage: nat, parent: nat, c: nat, category: PageType,
                              ghost k: nat, ghost w: nat, ghost u: nat, ghost ex: nat)
      requires store.Valid() && Pairing(State(), k, nodeCap, w, c, u, leftPage, rightPage, parent, ex)
      requires {leftPage, rightPage, parent} <= store.dirty && category == if k == 0 then Leaf else Internal
      requires |SlotsOf(store.pages, leftPage)| + |SlotsOf(store.pages, rightPage)| <= nodeCap + 1
      modifies this`tree, store
      ensures store.Valid() && Repaired(old(State()), State(), k, nodeCap)
      ensures leftPage in store.inUse && rightPage !in store.inUse
      ensures c < |SlotsOf(old(store.pages), parent)| && SlotsOf(old(store.pages), rightPage) != []
      ensures SlotsOf(store.pages, leftPage) == Joined(old(store.pages), leftPage, rightPage, parent, c)
      ensures old(store.dirty) <= store.dirty && store.base == old(store.base)
      decreases |tree.levels| - k, 0, 0
    {
      hide Pairing, Detaching, Detached, Repaired, Consistent, Tracked, Movable, Joined, Join, ChildPages, TakenOver,
           PartJoined, Joinable, Reparented, PairMerged, DistinctChildren, Above, Siblings, Bits, Unused;
      ghost var a := State();
      store.InPages();
      PairHeights(a, k, nodeCap, w, c, u, leftPage, rightPage, parent, ex);
      PairMovable(a, k, nodeCap, w, c, u, leftPage, rightPage, parent, ex);
      PairChildren(a, k, nodeCap, w, c, u, leftPage, rightPage, parent, ex);
      DetachingPair(a, k, nodeCap, w, c, u, leftPage, rightPage, parent, ex);
      var parentPage := store.GetPage(parent, ReadWrite);
      var parentKey := parentPage.slots[c].key;
      DeleteParentEntry(leftPage, parent, c, k + 1, w, u, rightPage);
      ghost var b := State();
      store.InPages();
      DetachedPair(a, b, k, nodeCap, w, c, u, leftPage, rightPage, parent, ex);
      DetachedJoinable(a, b, nodeCap, leftPage, rightPage, parent, c, category);
      JoinPages(leftPage, rightPage, parentKey, category);
      ghost var s1 := store.pages;
      JoinedPages(a, b, s1, k, nodeCap, leftPage, rightPage, parent, c, category);
      UpdateParentPointers(leftPage);
      ghost var s2 := store.pages;
      store.InPages();
      store.SetEmptyPage(rightPage);
      store.InPages();
      TakenOverNow(a, b, s1, s2, State(), k, leftPage, rightPage, parent, c);
      MovableSizes(a.pages, nodeCap, leftPage, rightPage, parent, c, category);
      TakenOverSlots(b, State(), leftPage, rightPage, Joined(a.pages, leftPage, rightPage, parent, c));
      MergedNow(a, b, State(), k, nodeCap, w, c, u, leftPage, rightPage, parent, ex);
    }

    /** deleteParentEntry: takes entry c, whose right child r is node u + 1 of level k, off
        the parent of left and r, and repairs the levels above. */
    method DeleteParentEntry(leftPage: nat, parent: nat, c: nat, ghost k: nat, ghost w: nat, ghost u: nat, ghost r: nat)
      requires store.Valid() && Detaching(State(), k, nodeCap, w, c, u, leftPage, r, parent)
      requires leftPage in store.dirty && parent in store.dirty
      modifies this`tree, store
      ensures k < |old(tree.levels)| && u + 1 < |old(tree.levels)[k]|
      ensures store.Valid() && Detached(old(State()), State(), k, nodeCap, u + 1, r)
      ensures parent in old(store.pages) && old(store.pages)[parent].InternalPage? && 0 < c < |old(store.pages)[parent].slots|
      ensures |old(store.pages)[parent].slots| == 2 ==>
                && parent !in store.inUse && ParentOf(store.pages, leftPage) == 0
                && 0 in store.pages && store.pages[0].RootPtrPage? && store.pages[0].root == leftPage
      ensures var page := old(store.pages)[parent];
              |page.slots| > 2 && (|page.slots| - 2 >= nodeCap / 2 || page.parent == 0) ==>
                && store.inUse == old(store.inUse)
                && store.pages == old(store.pages)[parent := page.(slots := page.slots[..c] + page.slots[c + 1..])]
      ensures var page := old(store.pages)[parent];
              |page.slots| > 2 && |page.slots| - 2 < nodeCap / 2 ==>
                var s := old(store.pages)[parent := page.(slots := page.slots[..c] + page.slots[c + 1..])];
                var q, slots := ParentOf(s, parent), SlotsOf(s, ParentOf(s, parent));
                forall e :: 0 <= e < |slots| && slots[e].child == parent ==>
                  && (e > 0 ==> AdjustedLeft(s, store.pages, store.inUse, slots[e - 1].child, parent, q, e, nodeCap))
                  && (e == 0 && |slots| > 1 ==> AdjustedRight(s, store.pages, store.inUse, parent, slots[1].child, q, 1, nodeCap))
      ensures old(store.dirty) <= store.dirty && store.base == old(store.base)
      decreases |tree.levels| - k, 2
    {
      hide Detaching, Detached, Repaired, Consistent, Tracked, Progress, Above, Loose, Lacking, KeyCount, AdjustedLeft, AdjustedRight;
      ghost var a := State();
      DetachingFacts(a, k, nodeCap, w, c, u, leftPage, r, parent);
      SlotRemoved(a.pages[parent].slots, c);
      DeleteKeyAndRightChild(parent, c);
      var page := store.GetPage(parent, ReadOnly);
      if |page.slots| == 1 {
        DropRoot(leftPage, parent, c, k, w, u, r, a);
      } else {
        tree := RemoveNode(tree, k, u + 1);
        ghost var a1 := State();
        DetachedNow(a, a1, k, nodeCap, w, c, u, leftPage, r, parent);
        if nodeCap - (|page.slots| - 1) > nodeCap - nodeCap / 2 {
          LackingNow(a, a1, k, nodeCap, w, c, u, leftPage, r, parent);
          HandleMinOccupancyInternalPage(parent, k, w);
          store.InPages();
          DetachedRepaired(a, a1, State(), k, nodeCap, u + 1, r);
        } else {
          DetachedEnough(a, a1, k, nodeCap, w, c, u, leftPage, r, parent);
        }
      }
    }

    /** The part of deleteParentEntry for a root that lost its last entry: left is the new
        root, and the old one is freed. */
    method DropRoot(leftPage: nat, parent: nat, c: nat, ghost k: nat, ghost w: nat, ghost u: nat, ghost r: nat, ghost a: Trees.State)
      requires store.Valid() && Detaching(a, k, nodeCap, w, c, u, leftPage, r, parent)
      requires k < |a.tree.levels| && u + 1 < |a.tree.levels[k]| && |SlotsOf(a.pages, parent)| == 2
      requires parent in a.pages && a.pages[parent].InternalPage? && a.pages[parent].parent == 0
      requires store.pages.Keys == a.pages.Keys && (forall p :: p in a.pages && p != parent ==> store.pages[p] == a.pages[p])
      requires tree == a.tree && store.inUse == a.inUse && leftPage in store.dirty
      requires store.pages[parent].InternalPage? && store.pages[parent].parent == 0
      modifies this`tree, store
      ensures store.Valid() && Detached(a, State(), k, nodeCap, u + 1, r)
      ensures parent !in store.inUse && ParentOf(store.pages, leftPage) == 0
      ensures 0 in store.pages && store.pages[0].RootPtrPage? && store.pages[0].root == leftPage
      ensures old(store.dirty) <= store.dirty && store.base == old(store.base)
    {
      hide Detaching, Detached, Consistent, Tracked, Progress, Above, Bits, Unused;
      DetachingFacts(a, k, nodeCap, w, c, u, leftPage, r, parent);
      store.InPages();
      var page := store.GetPage(parent, ReadOnly);
      assert page.parent == 0;
      var left := store.GetPage(leftPage, ReadWrite);
      store.Put(leftPage, WithParent(left, 0));
      var rootPtr := store.GetPage(0, ReadWrite);
      store.SetRoot(leftPage, if left.LeafPage? then Leaf else Internal);
      store.SetEmptyPage(parent);
      tree := PopRoot(tree, k, leftPage, r, parent);
      DroppedNow(a, State(), k, nodeCap, w, c, u, leftPage, r, parent);
    }

    /** handleMinOccupancyPage on an internal page p, node u of level k + 1, and
        handleMinOccupancyInternalPage: p borrows from a sibling or merges with one. */
    method HandleMinOccupancyInternalPage(p: nat, ghost k: nat, ghost u: nat)
      requires store.Valid() && Lacking(State(), k, nodeCap, u, p) && p in store.dirty
      modifies this`tree, store
      ensures k < |old(tree.levels)|
      ensures store.Valid() && Repaired(old(State()), State(), k, nodeCap)
      ensures ParentOf(old(store.pages), p) == 0 ==> State() == old(State()) && store.dirty == old(store.dirty)
      ensures var q, slots := ParentOf(old(store.pages), p), SlotsOf(old(store.pages), ParentOf(old(store.pages), p));
              forall e :: 0 <= e < |slots| && slots[e].child == p ==>
                && (e > 0 ==> AdjustedLeft(old(store.pages), store.pages, store.inUse, slots[e - 1].child, p, q, e, nodeCap))
                && (e == 0 && |slots| > 1 ==> AdjustedRight(old(store.pages), store.pages, store.inUse, p, slots[1].child, q, 1, nodeCap))
      ensures old(store.dirty) <= store.dirty && store.base == old(store.base)
      decreases |tree.levels| - k, 1
    {
      hide Lacking, Pairing, Repaired, Consistent, Tracked, DistinctChildren, Above, AdjustedLeft, AdjustedRight;
      store.InPages();
      ghost var a := State();
      LackingFacts(a, k, nodeCap, u, p);
      var page := store.GetPage(p, ReadOnly);
      if page.parent == 0 {
        LackingRoot(a, k, nodeCap, u, p);
      } else {
        ghost var w, c := LackingPairs(a, k, nodeCap, u, p);
        var parent := store.GetPage(page.parent, ReadWrite);
        OnlyChild(parent.slots, c, p);
        var leftEntry, rightEntry := EntriesAround(parent.slots, p);
        if leftEntry != 0 {
          BorrowOrMergeLeft(p, parent.slots[leftEntry - 1].child, page.parent, leftEntry, page.childCategory, k, w, u - 1);
          AdjustedOnce(a.pages, store.pages, store.inUse, page.parent, leftEntry, p, nodeCap);
        } else if rightEntry != 0 {
          BorrowOrMergeRight(p, parent.slots[rightEntry].child, page.parent, rightEntry, page.childCategory, k, w, u);
          AdjustedOnce(a.pages, store.pages, store.inUse, page.parent, 0, p, nodeCap);
        }
      }
    }

    /** handleMinOccupancyInternalPage, when there is a left sibling. */
    method BorrowOrMergeLeft(p: nat, leftSiblingId: nat, parent: nat, c: nat, category: PageType,
                             ghost k: nat, ghost w: nat, ghost u: nat)
      requires store.Valid() && Pairing(State(), k, nodeCap, w, c, u, leftSiblingId, p, parent, p)
      requires {p, parent} <= store.dirty && category == if k == 0 then Leaf else Internal
      requires |SlotsOf(store.pages, p)| - 1 < nodeCap / 2
      modifies this`tree, store
      ensures k < |old(tree.levels)|
      ensures store.Valid() && Repaired(old(State()), State(), k, nodeCap)
      ensures c < |SlotsOf(old(store.pages), parent)|
      ensures AdjustedLeft(old(store.pages), store.pages, store.inUse, leftSiblingId, p, parent, c, nodeCap)
      ensures |SlotsOf(old(store.pages), leftSiblingId)| - 1 <= nodeCap / 2 ==>
                p !in store.inUse && SlotsOf(store.pages, leftSiblingId) == Joined(old(store.pages), leftSiblingId, p, parent, c)
      ensures |SlotsOf(old(store.pages), leftSiblingId)| - 1 > nodeCap / 2 ==>
                && store.inUse == old(store.inUse) && |SlotsOf(old(store.pages), p)| <= |SlotsOf(old(store.pages), leftSiblingId)|
                && CutAt(old(store.pages), store.pages, leftSiblingId, p, parent, c, |SlotsOf(old(store.pages), leftSiblingId)| -
                         (|SlotsOf(old(store.pages), leftSiblingId)| - |SlotsOf(old(store.pages), p)|) / 2)
      ensures old(store.dirty) <= store.dirty && store.base == old(store.base)
      decreases |tree.levels| - k, 0, 1
    {
      hide Pairing, Repaired, Consistent, Tracked, Movable, Joined, Join, ChildPages, Resliced, Above, Tail, CutAt;
      ghost var a := State();
      PairHeights(a, k, nodeCap, w, c, u, leftSiblingId, p, parent, p);
      PairMovable(a, k, nodeCap, w, c, u, leftSiblingId, p, parent, p);
      MovableSizes(a.pages, nodeCap, leftSiblingId, p, parent, c, category);
      var maxEmptySlots := nodeCap - nodeCap / 2;
      var leftSibling := store.GetPage(leftSiblingId, ReadWrite);
      if nodeCap - (|leftSibling.slots| - 1) >= maxEmptySlots {
        MergeInternalPages(leftSiblingId, p, parent, c, category, k, w, u, p);
      } else {
        PairChildren(a, k, nodeCap, w, c, u, leftSiblingId, p, parent, p);
        ghost var n;
        var ok;
        ok, n := StealFromLeftInternalPage(p, leftSiblingId, parent, c, category, k);
        assert ok;
        tree := RekeyNode(tree, k + 1, u + 1, Joined(a.pages, leftSiblingId, p, parent, c)[n].key);
        BorrowedRepaired(a, State(), k, nodeCap, w, c, u, leftSiblingId, p, parent, p, n);
      }
    }

    /** handleMinOccupancyInternalPage, when there is only a right sibling. */
    method BorrowOrMergeRight(p: nat, rightSiblingId: nat, parent: nat, c: nat, category: PageType,
                              ghost k: nat, ghost w: nat, ghost u: nat)
      requires store.Valid() && Pairing(State(), k, nodeCap, w, c, u, p, rightSiblingId, parent, p)
      requires {p, parent} <= store.dirty && category == if k == 0 then Leaf else Internal
      requires |SlotsOf(store.pages, p)| - 1 < nodeCap / 2
      modifies this`tree, store
      ensures k < |old(tree.levels)|
      ensures store.Valid() && Repaired(old(State()), State(), k, nodeCap)
      ensures c < |SlotsOf(old(store.pages), parent)|
      ensures AdjustedRight(old(store.pages), store.pages, store.inUse, p, rightSiblingId, parent, c, nodeCap)
      ensures |SlotsOf(old(store.pages), rightSiblingId)| - 1 <= nodeCap / 2 ==>
                rightSiblingId !in store.inUse && SlotsOf(store.pages, p) == Joined(old(store.pages), p, rightSiblingId, parent, c)
      ensures |SlotsOf(old(store.pages), rightSiblingId)| - 1 > nodeCap / 2 ==>
                && store.inUse == old(store.inUse) && |SlotsOf(old(store.pages), p)| <= |SlotsOf(old(store.pages), rightSiblingId)|
                && CutAt(old(store.pages), store.pages, p, rightSiblingId, parent, c, |SlotsOf(old(store.pages), p)| +
                         (|SlotsOf(old(store.pages), rightSiblingId)| - |SlotsOf(old(store.pages), p)|) / 2)
      ensures old(store.dirty) <= store.dirty && store.base == old(store.base)
      decreases |tree.levels| - k, 0, 1
    {
      hide Pairing, Repaired, Consistent, Tracked, Movable, Joined, Join, ChildPages, Resliced, Above, Tail, CutAt;
      ghost var a := State();
      PairHeights(a, k, nodeCap, w, c, u, p, rightSiblingId, parent, p);
      PairMovable(a, k, nodeCap, w, c, u, p, rightSiblingId, parent, p);
      MovableSizes(a.pages, nodeCap, p, rightSiblingId, parent, c, category);
      var maxEmptySlots := nodeCap - nodeCap / 2;
      var rightSibling := store.GetPage(rightSiblingId, ReadWrite);
      if nodeCap - (|rightSibling.slots| - 1) >= maxEmptySlots {
        MergeInternalPages(p, rightSiblingId, parent, c, category, k, w, u, p);
      } else {
        PairChildren(a, k, nodeCap, w, c, u, p, rightSiblingId, parent, p);
        ghost var n;
        var ok;
        ok, n := StealFromRightInternalPage(p, rightSiblingId, parent, c, category, k);
        assert ok;
        tree := RekeyNode(tree, k + 1, u + 1, Joined(a.pages, p, rightSiblingId, parent, c)[n].key);
        BorrowedRepaired(a, State(), k, nodeCap, w, c, u, p, rightSiblingId, parent, p, n);
      }
    }

    // ------------------------------------------------- borrowing and merging leaves

    /** The first tuple of page p goes to page l. */
    method MoveFirstTuple(p: nat, l: nat) returns (t: Tuple)
      requires store.Valid() && p != l && {p, l} <= store.inUse && {p, l} <= store.dirty && {p, l} <= store.pages.Keys
      requires store.pages[p].LeafPage? && store.pages[l].LeafPage? && store.pages[p].tuples != []
      requires |store.pages[l].tuples| < leafCap
      modifies store`pages
      ensures store.Valid()
      ensures var ts, us := old(store.pages)[p].tuples, old(store.pages)[l].tuples;
              && t == ts[0]
              && PairChanged(old(store.pages), store.pages, p, old(store.pages)[p].(tuples := ts[1..]),
                             l, old(store.pages)[l].(tuples := SortedInsert(us, t)))
    {
      var page := store.pages[p];
      t := page.tuples[0];
      store.Put(p, page.(tuples := page.tuples[1..]));
      AddTuple(l, t);
    }

    /** The first count tuples of page p go to page l. */
    method MoveTuplesLeft(p: nat, l: nat, count: nat)
      requires store.Valid() && p != l && {p, l} <= store.inUse && {p, l} <= store.dirty && {p, l} <= store.pages.Keys
      requires store.pages[p].LeafPage? && store.pages[l].LeafPage? && SortedTuples(store.pages[l].tuples)
      requires count <= |store.pages[p].tuples| && |store.pages[l].tuples| + count <= leafCap
      modifies store`pages
      ensures store.Valid() && FrontMoved(old(store.pages), store.pages, p, count, l)
      ensures var ts, us := TuplesOf(old(store.pages), p), TuplesOf(old(store.pages), l);
              TuplesOf(store.pages, p) == ts[count..] && TuplesOf(store.pages, l) == PutAll(us, ts[..count])
    {
      hide Consistent, Tracked, SortedInsert, SortedTuples, FrontMoved, PairChanged;
      ghost var s := store.pages;
      NoFrontMoved(s, p, l);
      var i := 0;
      while i < count
        invariant 0 <= i <= count && store.Valid() && FrontMoved(s, store.pages, p, i, l)
      {
        ghost var s1 := store.pages;
        FrontMovedSizes(s, s1, p, i, l);
        var t := MoveFirstTuple(p, l);
        FrontMovedOn(s, s1, store.pages, p, i, l);
        i := i + 1;
      }
      FrontMovedSizes(s, store.pages, p, i, l);
    }

    /** The last count tuples of page p go to page r; key is that of the last one moved. */
    method MoveLastTuples(p: nat, r: nat, count: nat) returns (key: int)
      requires store.Valid() && p != r && {p, r} <= store.inUse && {p, r} <= store.dirty && {p, r} <= store.pages.Keys
      requires store.pages[p].LeafPage? && store.pages[r].LeafPage? && SortedTuples(store.pages[r].tuples)
      requires 0 < count <= |store.pages[p].tuples| && |store.pages[r].tuples| + count <= leafCap
      modifies store`pages
      ensures store.Valid()
      ensures var h := |TuplesOf(old(store.pages), p)| - count;
              TuplesMoved(old(store.pages), store.pages, p, h, r) && key == TuplesOf(old(store.pages), p)[h].key
      ensures var ts, us, h := TuplesOf(old(store.pages), p), TuplesOf(old(store.pages), r), |TuplesOf(old(store.pages), p)| - count;
              TuplesOf(store.pages, p) == ts[..h] && TuplesOf(store.pages, r) == PutAll(us, Backward(ts[h..]))
    {
      hide Consistent, Tracked, SortedInsert, SortedTuples, TuplesMoved, PairChanged;
      ghost var s := store.pages;
      ghost var n := |s[p].tuples|;
      NoTupleMoved(s, p, r);
      var i := 0;
      key := 0;
      while i < count
        invariant 0 <= i <= count && store.Valid() && TuplesMoved(s, store.pages, p, n - i, r)
        invariant i > 0 ==> key == s[p].tuples[n - i].key
      {
        ghost var s1 := store.pages;
        MovedSizes(s, s1, p, n - i, r);
        var t := MoveLastTuple(p, r);
        TupleMoved(s, s1, store.pages, p, n - i, r);
        key := t.key;
        i := i + 1;
      }
      MovedSizes(s, store.pages, p, n - i, r);
    }

    /** updateEntry on page q, with the key of entry c changed. */
    method UpdateEntryIn(q: nat, c: nat, key: int, left: nat, right: nat) returns (ok: bool)
      requires store.Valid() && q in store.inUse && q in store.dirty && q in store.pages
      requires store.pages[q].InternalPage? && 0 < c < |store.pages[q].slots|
      modifies store`pages
      ensures store.Valid()
      ensures ok <==> UpdateEntry(old(store.pages)[q].slots, c, key, left, right).Some?
      ensures ok ==> store.pages == old(store.pages)[q :=
                old(store.pages)[q].(slots := UpdateEntry(old(store.pages)[q].slots, c, key, left, right).value)]
    {
      var page := store.pages[q];
      var slots := UpdateEntry(page.slots, c, key, left, right);
      ok := slots.Some?;
      if ok {
        store.Put(q, page.(slots := slots.value));
      }
    }

    /** stealFromLeafPage, from the left sibling; not ok when there is nothing to steal. */
    method StealFromLeftLeaf(page: nat, sibling: nat, parent: nat, c: nat, ghost w: nat, ghost j: nat) returns (ok: bool)
      requires store.Valid() && LeafPairing(State(), leafCap, nodeCap, w, c, j, sibling, page, parent, page) && leafCap >= 2
      requires {page, sibling, parent} <= store.dirty && |TuplesOf(store.pages, page)| < MinTuples(leafCap)
      modifies this`tree, store`pages
      ensures ok <==> |TuplesOf(old(store.pages), sibling)| >= |TuplesOf(old(store.pages), page)| + 2
      ensures ok ==> store.Valid()
      ensures ok && |TuplesOf(old(store.pages), sibling)| > MinTuples(leafCap) ==>
                && Legal(State(), leafCap, nodeCap, 0) && tree.levels != [] && old(tree.levels) != []
                && multiset(Contents(store.pages, tree.levels[0])) == multiset(Contents(old(store.pages), old(tree.levels)[0]))
      ensures ok && |TuplesOf(old(store.pages), sibling)| > MinTuples(leafCap) && StrictLevel(old(tree.levels)[0]) ==>
                (StrictLevel(tree.levels[0]) <==> !EqualShare(old(store.pages), old(tree.levels)[0], j, leafCap, true))
      ensures ok ==> var few, many := TuplesOf(old(store.pages), page), TuplesOf(old(store.pages), sibling);
                var left := |many| - (|many| - |few|) / 2;
                && 0 < left < |many| && TuplesOf(store.pages, sibling) == many[..left]
                && TuplesOf(store.pages, page) == PutAll(few, Backward(many[left..])) && TuplesOf(store.pages, page)[0].key == many[left].key
                && c < |SlotsOf(old(store.pages), parent)|
                && SlotsOf(store.pages, parent) == SlotsOf(old(store.pages), parent)[c := Slot(many[left].key, page)]
      ensures ok ==> forall p :: p in old(store.pages) && p !in {page, sibling, parent} ==> p in store.pages && store.pages[p] == old(store.pages)[p]
    {
      hide Consistent, Tracked, LeafPairing, SortedTuples, AllAtLeast, AllAtMost, Contents, Legal, TuplesMoved, Reshared,
           Above, LeavesOK, Siblings, UpdateEntry, NoDup, SortedLevel, StrictLevel, PutAll, Backward;
      ghost var a := State();
      LeafPairPages(a, leafCap, nodeCap, w, c, j, sibling, page, parent, page);
      LeafPairTuples(a, leafCap, nodeCap, w, c, j, sibling, page, parent, page);
      var few, many := store.pages[page], store.pages[sibling];
      var itemsToMove := (|many.tuples| - |few.tuples|) / 2;
      if itemsToMove <= 0 {
        return false;
      }
      ghost var h := |many.tuples| - itemsToMove;
      var key := MoveLastTuples(sibling, page, itemsToMove);
      ghost var s1 := store.pages;
      MovedSizes(a.pages, s1, sibling, h, page);
      OtherKept(a.pages, s1, sibling, h, page, parent);
      ghost var s2 := s1[parent := a.pages[parent].(slots := SlotsOf(a.pages, parent)[c := Slot(key, page)])];
      StolenFromLeft(a.pages, s1, s2, sibling, page, parent, c, h, a.tree.levels[0][j + 1].key, key);
      ResharedRight(a.pages, s2, sibling, page, parent, c, key);
      BorrowedLeft(a.pages, s1, s2, sibling, page, parent, c, h, key);
      SeparatorUpdated(a, s2, leafCap, nodeCap, w, c, j, sibling, page, parent, page, key);
      ok := UpdateEntryIn(parent, c, key, sibling, page);
      tree := RekeyNode(tree, 0, j + 1, key);
      if |many.tuples| > MinTuples(leafCap) {
        BorrowedLegal(a, State(), leafCap, nodeCap, w, c, j, sibling, page, parent, page, key);
        if StrictLevel(a.tree.levels[0]) {
          StrictAfterBorrow(a.pages, s2, a.tree.levels[0], leafCap, page, j, sibling, page, parent, c, key);
        }
      }
    }

    /** stealFromLeafPage, from the right sibling. */
    method StealFromRightLeaf(page: nat, sibling: nat, parent: nat, c: nat, ghost w: nat, ghost j: nat) returns (ok: bool)
      requires store.Valid() && LeafPairing(State(), leafCap, nodeCap, w, c, j, page, sibling, parent, page) && leafCap >= 2
      requires {page, sibling, parent} <= store.dirty && |TuplesOf(store.pages, page)| < MinTuples(leafCap)
      modifies this`tree, store`pages
      ensures ok <==> |TuplesOf(old(store.pages), sibling)| >= |TuplesOf(old(store.pages), page)| + 2
      ensures ok ==> store.Valid()
      ensures ok && |TuplesOf(old(store.pages), sibling)| > MinTuples(leafCap) ==>
                && Legal(State(), leafCap, nodeCap, 0) && tree.levels != [] && old(tree.levels) != []
                && multiset(Contents(store.pages, tree.levels[0])) == multiset(Contents(old(store.pages), old(tree.levels)[0]))
      ensures ok && |TuplesOf(old(store.pages), sibling)| > MinTuples(leafCap) && StrictLevel(old(tree.levels)[0]) ==>
                (StrictLevel(tree.levels[0]) <==> !EqualShare(old(store.pages), old(tree.levels)[0], j, leafCap, false))
      ensures ok ==> var few, many := TuplesOf(old(store.pages), page), TuplesOf(old(store.pages), sibling);
                var moved := (|many| - |few|) / 2;
                && 0 < moved < |many| && TuplesOf(store.pages, sibling) == many[moved..]
                && TuplesOf(store.pages, page) == PutAll(few, many[..moved])
                && c < |SlotsOf(old(store.pages), parent)|
                && SlotsOf(store.pages, parent) == SlotsOf(old(store.pages), parent)[c := Slot(many[moved].key, sibling)]
      ensures ok ==> forall p :: p in old(store.pages) && p !in {page, sibling, parent} ==> p in store.pages && store.pages[p] == old(store.pages)[p]
    {
      hide Consistent, Tracked, LeafPairing, SortedTuples, AllAtLeast, AllAtMost, Contents, Legal, FrontMoved, Reshared,
           Above, LeavesOK, Siblings, UpdateEntry, NoDup, SortedLevel, StrictLevel, PutAll;
      ghost var a := State();
      LeafPairPages(a, leafCap, nodeCap, w, c, j, page, sibling, parent, page);
      LeafPairTuples(a, leafCap, nodeCap, w, c, j, page, sibling, parent, page);
      var few, many := store.pages[page], store.pages[sibling];
      var itemsToMove := (|many.tuples| - |few.tuples|) / 2;
      if itemsToMove <= 0 {
        return false;
      }
      MoveTuplesLeft(sibling, page, itemsToMove);
      ghost var s1 := store.pages;
      FrontMovedSizes(a.pages, s1, sibling, itemsToMove, page);
      OtherKeptFront(a.pages, s1, sibling, itemsToMove, page, parent);
      var key := store.pages[sibling].tuples[0].key;
      ghost var s2 := s1[parent := a.pages[parent].(slots := SlotsOf(a.pages, parent)[c := Slot(key, sibling)])];
      StolenFromRight(a.pages, s1, s2, page, sibling, parent, c, itemsToMove, a.tree.levels[0][j + 1].key, key);
      BorrowedRight(a.pages, s1, s2, page, sibling, parent, c, itemsToMove, key);
      SeparatorUpdated(a, s2, leafCap, nodeCap, w, c, j, page, sibling, parent, page, key);
      ok := UpdateEntryIn(parent, c, key, page, sibling);
      tree := RekeyNode(tree, 0, j + 1, key);
      if |many.tuples| > MinTuples(leafCap) {
        BorrowedLegal(a, State(), leafCap, nodeCap, w, c, j, page, sibling, parent, page, key);
        if StrictLevel(a.tree.levels[0]) {
          StrictAfterBorrow(a.pages, s2, a.tree.levels[0], leafCap, page, j, page, sibling, parent, c, key);
        }
      }
    }

    /** The first part of mergeLeafPages: the right leaf is emptied into the left one, and
        taken out of the sibling chain. */
    method JoinLeaves(leftPage: nat, rightPage: nat)
      requires store.Valid() && leftPage != rightPage && {leftPage, rightPage} <= store.inUse && {leftPage, rightPage} <= store.dirty
      requires {leftPage, rightPage} <= store.pages.Keys && store.pages[leftPage].LeafPage? && store.pages[rightPage].LeafPage?
      requires SortedTuples(store.pages[leftPage].tuples)
      requires |store.pages[leftPage].tuples| + |store.pages[rightPage].tuples| <= leafCap
      requires var next := store.pages[rightPage].right;
               next != 0 ==> next != leftPage && next != rightPage && next in store.inUse && next in store.pages && store.pages[next].LeafPage?
      modifies store`pages, store`dirty
      ensures store.Valid() && LeavesJoined(old(store.pages), store.pages, leftPage, rightPage)
      ensures TuplesOf(store.pages, leftPage) == PutAll(TuplesOf(old(store.pages), leftPage), TuplesOf(old(store.pages), rightPage))
      ensures old(store.dirty) <= store.dirty
    {
      hide Consistent, Tracked, SortedTuples, FrontMoved, LeavesJoined;
      ghost var s := store.pages;
      var right := store.pages[rightPage];
      MoveTuplesLeft(rightPage, leftPage, |right.tuples|);
      ghost var s1 := store.pages;
      FrontMovedSizes(s, s1, rightPage, |right.tuples|, leftPage);
      var nextPageId := right.right;
      if nextPageId != 0 {
        OtherKeptFront(s, s1, rightPage, |right.tuples|, leftPage, nextPageId);
      }
      var left := store.pages[leftPage];
      store.Put(leftPage, left.(right := nextPageId));
      if nextPageId != 0 {
        var nextPage := store.GetPage(nextPageId, ReadWrite);
        store.Put(nextPageId, nextPage.(left := leftPage));
      }
      LeavesJoinedNow(s, s1, store.pages, leftPage, rightPage);
      assert right.tuples[..|right.tuples|] == right.tuples;
    }

    /** mergeLeafPages. */
    method MergeLeafPages(leftPage: nat, rightPage: nat, parent: nat, c: nat, ghost w: nat, ghost j: nat, ghost ex: nat)
      requires store.Valid() && LeafPairing(State(), leafCap, nodeCap, w, c, j, leftPage, rightPage, parent, ex) && leafCap >= 2
      requires {leftPage, rightPage, parent} <= store.dirty
      requires |TuplesOf(store.pages, leftPage)| + |TuplesOf(store.pages, rightPage)| <= leafCap
      modifies this`tree, store
      ensures store.Valid() && Legal(State(), leafCap, nodeCap, 0) && tree.levels != [] && old(tree.levels) != []
      ensures multiset(Contents(store.pages, tree.levels[0])) == multiset(Contents(old(store.pages), old(tree.levels)[0]))
      ensures old(store.dirty) <= store.dirty && store.base == old(store.base)
      ensures StrictLevel(old(tree.levels)[0]) ==> StrictLevel(tree.levels[0])
      ensures leftPage in store.inUse && rightPage !in store.inUse
      ensures TuplesOf(store.pages, leftPage) == PutAll(TuplesOf(old(store.pages), leftPage), TuplesOf(old(store.pages), rightPage))
    {
      hide Consistent, Tracked, LeafPairing, SortedTuples, AllAtLeast, AllAtMost, Contents, Legal, Detaching, Detached,
           Above, LeavesOK, Siblings, LeavesJoined, NoDup, SortedLevel, Bits, Unused, StrictLevel, PutAll, RemoveAt, InsertAfter;
      ghost var a := State();
      LeafPairPages(a, leafCap, nodeCap, w, c, j, leftPage, rightPage, parent, ex);
      LeafPairTuples(a, leafCap, nodeCap, w, c, j, leftPage, rightPage, parent, ex);
      LeafAfter(a, leafCap, nodeCap, w, c, j, leftPage, rightPage, parent, ex);
      JoinLeaves(leftPage, rightPage);
      ghost var a1 := State();
      JoinedDetaching(a, a1, leafCap, nodeCap, w, c, j, leftPage, rightPage, parent, ex);
      DeleteParentEntry(leftPage, parent, c, 0, w, j, rightPage);
      ghost var b := State();
      store.InPages();
      DetachedLoose(a1, b, 0, nodeCap, j + 1, rightPage);
      store.SetEmptyPage(rightPage);
      store.InPages();
      MergedLegal(a, a1, b, State(), leafCap, nodeCap, w, c, j, leftPage, rightPage, parent, ex);
      JoinedStay(a, a1, b, State(), j, leftPage, rightPage, nodeCap);
      LegalRoot(State(), leafCap, nodeCap, 0);
      if StrictLevel(a.tree.levels[0]) {
        StrictRemove(a.tree.levels[0], j + 1);
      }
    }

    /** handleMinOccupancyPage on leaf j, page p, and handleMinOccupancyLeafPage: p borrows
        from a sibling or merges with one. */
    method HandleMinOccupancyLeafPage(p: nat, ghost j: nat)
      requires store.Valid() && Legal(State(), leafCap, nodeCap, p) && leafCap >= 2 && nodeCap >= 5
      requires tree.levels != [] && j < |tree.levels[0]| && tree.levels[0][j].child == p && p in store.dirty
      requires |TuplesOf(store.pages, p)| < MinTuples(leafCap)
      modifies this`tree, store
      ensures store.Valid() && Legal(State(), leafCap, nodeCap, 0) && tree.levels != [] && old(tree.levels) != []
      ensures multiset(Contents(store.pages, tree.levels[0])) == multiset(Contents(old(store.pages), old(tree.levels)[0]))
      ensures old(store.dirty) <= store.dirty && store.base == old(store.base)
      ensures StrictLevel(old(tree.levels)[0]) ==>
                (StrictLevel(tree.levels[0]) <==>
                 !SharesAtSeparator(old(store.pages), p, |TuplesOf(old(store.pages), p)|, leafCap, |old(tree.levels)| - 1))
      ensures ParentOf(old(store.pages), p) == 0 ==> State() == old(State()) && store.dirty == old(store.dirty)
      ensures var q, slots := ParentOf(old(store.pages), p), SlotsOf(old(store.pages), ParentOf(old(store.pages), p));
              var before := old(store.dirty) + {q};
              forall e :: 0 <= e < |slots| && slots[e].child == p ==>
                && (e > 0 ==> SharedLeft(old(store.pages), store.pages, store.inUse, slots[e - 1].child, p, leafCap, before, store.dirty))
                && (e == 0 && |slots| > 1 ==>
                      SharedRight(old(store.pages), store.pages, store.inUse, p, slots[1].child, leafCap, before, store.dirty))
    {
      hide Consistent, Tracked, LeafPairing, Contents, Legal, DistinctChildren, SortedTuples, StrictLevel, EqualShare, SharesAtSeparator,
           SharedLeft, SharedRight;
      store.InPages();
      ghost var a := State();
      LeafPlace(a, leafCap, nodeCap, p, j);
      var page := store.GetPage(p, ReadOnly);
      if page.parent == 0 {
        RootLeafAlone(a, leafCap, nodeCap, j, p);
        RootSharesNothing(a.pages, p, |page.tuples|, leafCap, |tree.levels| - 1);
      } else {
        ghost var w, c := LeafSiblings(a, leafCap, nodeCap, j, p);
        var parent := store.GetPage(page.parent, ReadWrite);
        ghost var before := store.dirty;
        assert before == old(store.dirty) + {page.parent};
        OnlyChild(parent.slots, c, p);
        var leftEntry, rightEntry := EntriesAround(parent.slots, p);
        if leftEntry != 0 {
          PairLegal(a, leafCap, nodeCap, w, leftEntry, j - 1, parent.slots[leftEntry - 1].child, p, page.parent, p);
          SharesExactly(a, leafCap, nodeCap, w, leftEntry, j - 1, parent.slots[leftEntry - 1].child, p, page.parent, true, p);
          ShareWithLeftLeaf(p, parent.slots[leftEntry - 1].child, page.parent, leftEntry, w, j - 1);
          SharedOnce(a.pages, store.pages, store.inUse, parent.slots, leftEntry, p, leafCap, before, store.dirty);
        } else if rightEntry != 0 {
          PairLegal(a, leafCap, nodeCap, w, rightEntry, j, p, parent.slots[rightEntry].child, page.parent, p);
          SharesExactly(a, leafCap, nodeCap, w, rightEntry, j, p, parent.slots[rightEntry].child, page.parent, false, p);
          ShareWithRightLeaf(p, parent.slots[rightEntry].child, page.parent, rightEntry, w, j);
          SharedOnce(a.pages, store.pages, store.inUse, parent.slots, 0, p, leafCap, before, store.dirty);
        }
      }
    }

    /** handleMinOccupancyLeafPage, when there is a left sibling. */
    method ShareWithLeftLeaf(p: nat, leftSiblingId: nat, parent: nat, c: nat, ghost w: nat, ghost j: nat)
      requires store.Valid() && LeafPairing(State(), leafCap, nodeCap, w, c, j, leftSiblingId, p, parent, p) && leafCap >= 2
      requires {p, parent} <= store.dirty && |TuplesOf(store.pages, p)| < MinTuples(leafCap)
      modifies this`tree, store
      ensures store.Valid() && Legal(State(), leafCap, nodeCap, 0) && tree.levels != [] && old(tree.levels) != []
      ensures multiset(Contents(store.pages, tree.levels[0])) == multiset(Contents(old(store.pages), old(tree.levels)[0]))
      ensures old(store.dirty) <= store.dirty && store.base == old(store.base)
      ensures j + 1 < |old(tree.levels)[0]|
      ensures StrictLevel(old(tree.levels)[0]) ==>
                (StrictLevel(tree.levels[0]) <==> !EqualShare(old(store.pages), old(tree.levels)[0], j, leafCap, true))
      ensures leftSiblingId in store.inUse && SharedLeft(old(store.pages), store.pages, store.inUse, leftSiblingId, p, leafCap, old(store.dirty), store.dirty)
      ensures |TuplesOf(old(store.pages), leftSiblingId)| <= leafCap / 2 ==>
                p !in store.inUse && TuplesOf(store.pages, leftSiblingId) == PutAll(TuplesOf(old(store.pages), leftSiblingId), TuplesOf(old(store.pages), p))
      ensures |TuplesOf(old(store.pages), leftSiblingId)| > leafCap / 2 ==>
                var few, many := TuplesOf(old(store.pages), p), TuplesOf(old(store.pages), leftSiblingId);
                var left := |many| - (|many| - |few|) / 2;
                && store.dirty == old(store.dirty) + {leftSiblingId}
                && 0 < left < |many| && p in store.inUse && store.inUse == old(store.inUse) && TuplesOf(store.pages, leftSiblingId) == many[..left]
                && TuplesOf(store.pages, p) == PutAll(few, Backward(many[left..]))
    {
      hide Consistent, Tracked, LeafPairing, Contents, Legal, SortedTuples, AllAtLeast, AllAtMost, Above, LeavesOK, Siblings, StrictLevel, PutAll, Backward;
      ghost var a := State();
      LeafPairPages(a, leafCap, nodeCap, w, c, j, leftSiblingId, p, parent, p);
      LeafPairTuples(a, leafCap, nodeCap, w, c, j, leftSiblingId, p, parent, p);
      var maxEmptySlots := leafCap - leafCap / 2;
      var leftSibling := store.GetPage(leftSiblingId, ReadWrite);
      if leafCap - |leftSibling.tuples| >= maxEmptySlots {
        MergeLeafPages(leftSiblingId, p, parent, c, w, j, p);
      } else {
        var ok := StealFromLeftLeaf(p, leftSiblingId, parent, c, w, j);
        assert ok;
      }
    }

    /** handleMinOccupancyLeafPage, when there is only a right sibling. */
    method ShareWithRightLeaf(p: nat, rightSiblingId: nat, parent: nat, c: nat, ghost w: nat, ghost j: nat)
      requires store.Valid() && LeafPairing(State(), leafCap, nodeCap, w, c, j, p, rightSiblingId, parent, p) && leafCap >= 2
      requires {p, parent} <= store.dirty && |TuplesOf(store.pages, p)| < MinTuples(leafCap)
      modifies this`tree, store
      ensures store.Valid() && Legal(State(), leafCap, nodeCap, 0) && tree.levels != [] && old(tree.levels) != []
      ensures multiset(Contents(store.pages, tree.levels[0])) == multiset(Contents(old(store.pages), old(tree.levels)[0]))
      ensures old(store.dirty) <= store.dirty && store.base == old(store.base)
      ensures j + 1 < |old(tree.levels)[0]|
      ensures StrictLevel(old(tree.levels)[0]) ==>
                (StrictLevel(tree.levels[0]) <==> !EqualShare(old(store.pages), old(tree.levels)[0], j, leafCap, false))
      ensures p in store.inUse && SharedRight(old(store.pages), store.pages, store.inUse, p, rightSiblingId, leafCap, old(store.dirty), store.dirty)
      ensures |TuplesOf(old(store.pages), rightSiblingId)| <= leafCap / 2 ==>
                rightSiblingId !in store.inUse && TuplesOf(store.pages, p) == PutAll(TuplesOf(old(store.pages), p), TuplesOf(old(store.pages), rightSiblingId))
      ensures |TuplesOf(old(store.pages), rightSiblingId)| > leafCap / 2 ==>
                var few, many := TuplesOf(old(store.pages), p), TuplesOf(old(store.pages), rightSiblingId);
                var moved := (|many| - |few|) / 2;
                && store.dirty == old(store.dirty) + {rightSiblingId}
                && 0 < moved < |many| && rightSiblingId in store.inUse && store.inUse == old(store.inUse) && TuplesOf(store.pages, rightSiblingId) == many[moved..]
                && TuplesOf(store.pages, p) == PutAll(few, many[..moved])
    {
      hide Consistent, Tracked, LeafPairing, Contents, Legal, SortedTuples, AllAtLeast, AllAtMost, Above, LeavesOK, Siblings, StrictLevel, PutAll, Backward;
      ghost var a := State();
      LeafPairPages(a, leafCap, nodeCap, w, c, j, p, rightSiblingId, parent, p);
      LeafPairTuples(a, leafCap, nodeCap, w, c, j, p, rightSiblingId, parent, p);
      var maxEmptySlots := leafCap - leafCap / 2;
      var rightSibling := store.GetPage(rightSiblingId, ReadWrite);
      if leafCap - |rightSibling.tuples| >= maxEmptySlots {
        MergeLeafPages(p, rightSiblingId, parent, c, w, j, p);
      } else {
        var ok := StealFromRightLeaf(p, rightSiblingId, parent, c, w, j);
        assert ok;
      }
    }

    // ---------------------------------------------------------------- deleting

    /** deleteTuple: takes tuple index off leaf page pageId, the place its record id names.
        Not ok when there is no such tuple. */
    method DeleteTuple(pageId: nat, index: nat) returns (ok: bool, dirtyPages: set<nat>)
      requires Valid() && nodeCap >= 5
      requires pageId in store.inUse && pageId in store.pages && store.pages[pageId].LeafPage?
      modifies this`tree, store
      ensures ok <==> index < |TuplesOf(old(store.pages), pageId)|
      ensures Valid() && SortedTuples(Tuples())
      ensures ok ==> multiset(Tuples()) + multiset{TuplesOf(old(store.pages), pageId)[index]} == multiset(old(Tuples()))
      ensures !ok ==> State() == old(State())
      ensures Tracked(store.pages, dirtyPages, old(store.pages))
      ensures ok && StrictLevels(old(tree)) ==>
                (StrictLevels(tree) <==>
                 !SharesAtSeparator(old(store.pages), pageId, |TuplesOf(old(store.pages), pageId)| - 1, leafCap, |old(tree.levels)| - 1))
      ensures ok && (|TuplesOf(old(store.pages), pageId)| - 1 >= leafCap / 2 || ParentOf(old(store.pages), pageId) == 0) ==>
                var ts := TuplesOf(old(store.pages), pageId);
                && store.inUse == old(store.inUse) && dirtyPages == {pageId}
                && store.pages == old(store.pages)[pageId := old(store.pages)[pageId].(tuples := ts[..index] + ts[index + 1..])]
      ensures ok && |TuplesOf(old(store.pages), pageId)| - 1 < leafCap / 2 ==>
                var s := Without(old(store.pages), pageId, index);
                var slots, before := SlotsOf(s, ParentOf(s, pageId)), {pageId} + {ParentOf(s, pageId)};
                forall e :: 0 <= e < |slots| && slots[e].child == pageId ==>
                  && (e > 0 ==> SharedLeft(s, store.pages, store.inUse, slots[e - 1].child, pageId, leafCap, before, dirtyPages))
                  && (e == 0 && |slots| > 1 ==>
                        SharedRight(s, store.pages, store.inUse, pageId, slots[1].child, leafCap, before, dirtyPages))
    {
      hide Consistent, Contents, Legal, SortedTuples, Tracked, RemoveTuple, StrictLevel, StrictLevels, SharesAtSeparator, DistinctChildren, SharedLeft, SharedRight,
           SlotsOf;
      assert !store.Empty();
      ghost var a := State();
      LegalRoot(a, leafCap, nodeCap, 0);
      LegalSorted(a, leafCap, nodeCap);
      store.Begin();
      ghost var j := LeafIndex(a, leafCap, nodeCap, pageId);
      var page := store.GetPage(pageId, ReadWrite);
      assert store.dirty == {pageId};
      ok := index < |page.tuples|;
      if ok {
        RemoveTupleIs(page.tuples, index);
        store.Put(pageId, page.(tuples := RemoveTuple(page.tuples, index)));
        ghost var b := State();
        TupleRemoved(a, b, leafCap, nodeCap, j, index);
        LegalRoot(b, leafCap, nodeCap, pageId);
        ParentDistinct(a, leafCap, nodeCap, j);
        SharesPut(a.pages, pageId, RemoveTuple(page.tuples, index), |page.tuples| - 1, leafCap, |tree.levels| - 1);
        EnoughSharesNothing(a.pages, pageId, |page.tuples| - 1, leafCap, |tree.levels| - 1);
        var maxEmptySlots := leafCap - leafCap / 2;
        if leafCap - (|page.tuples| - 1) > maxEmptySlots {
          HandleMinOccupancyLeafPage(pageId, j);
        } else {
          LegalEnough(b, leafCap, nodeCap, j);
        }
        LegalSorted(State(), leafCap, nodeCap);
        StrictFromLeaves(a, leafCap, nodeCap, 0);
        StrictFromLeaves(State(), leafCap, nodeCap, 0);
        store.InPages();
      }
      dirtyPages := store.dirty;
    }
  }
}
