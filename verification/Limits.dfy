/** Where the code does not do what its documentation says of it, and exactly when it
    does. */
module Limits {
  import opened Pages
  import opened Levels
  import opened Trees
  import opened Merging
  import opened Leaves
  import opened LeafPairs
  import opened LegalTrees
  import opened Separators
  import opened DistinctKeys

  // ------------------------------------------------------------------ half full

  /** In every legal file an internal page that is not the root has at least (max+1)/2 - 1
      entries, which is half full exactly when the maximum is odd. */
  lemma Occupancy(a: State, leafCap: nat, nodeCap: nat, p: nat)
    requires Legal(a, leafCap, nodeCap, 0) && nodeCap >= 3
    requires p in a.tree.heightOf && a.tree.heightOf[p] > 0 && ParentOf(a.pages, p) != 0
    ensures |SlotsOf(a.pages, p)| - 1 >= MinKeys(nodeCap)
    ensures nodeCap % 2 == 1 ==> |SlotsOf(a.pages, p)| - 1 >= nodeCap / 2
  {
    hide LeavesOK, Above, Linked;
    LegalPlaced(a, leafCap, nodeCap, 0);
    var k := a.tree.heightOf[p];
    var j := NodeIndex(a.tree, k, p);
    AboveAt(a.pages, a.tree, k - 1, nodeCap);
    LevelBelow(a.pages, a.tree, k - 1, nodeCap, 0);
    NodeKeys(a.pages, a.tree, k, nodeCap, 0, j);
    AboveUp(a.pages, a.tree, k - 1, nodeCap);
    ParentlessIsTop(a.pages, a.tree, k, nodeCap, 0, j);
  }

  /** Whenever a full internal page of a legal file is cut, its left half is half full, and
      the new page exactly when the maximum is odd. */
  lemma SplitOccupancy(a: State, b: State, k: nat, cap: nat, u: nat, q: nat, r: nat)
    requires Full(a, k, cap, u, q) && Halved(a, b, cap, q, r)
    ensures |SlotsOf(b.pages, q)| - 1 >= cap / 2
    ensures |SlotsOf(b.pages, r)| - 1 >= cap / 2 <==> cap % 2 == 1
  {
  }

  // ------------------------------------------------------------------ strict separators

  /** With distinct keys, and leaves of four tuples or no deletion so far, the separators of
      every level are strictly increasing; with leaves of three tuples, those of every level
      but the lowest. */
  lemma {:induction false} StrictSeparators(a: State, leafCap: nat, nodeCap: nat, k: nat)
    requires Legal(a, leafCap, nodeCap, 0) && k < |a.tree.levels|
    requires Distinct(Contents(a.pages, a.tree.levels[0]))
    requires leafCap >= 4 || (leafCap >= 3 && k > 0) || Anchored(a.pages, a.tree.levels[0])
    ensures StrictLevel(a.tree.levels[k])
  {
    hide LeavesOK, Contents, Distinct, Anchored, StrictLevel, NearlyStrict, Above;
    if k == 0 {
      LowestStrict(a, leafCap, nodeCap);
    } else {
      if k == 1 {
        LegalSeparated(a, leafCap, nodeCap);
        SeparatedNearly(a.pages, a.tree.levels[0], leafCap);
      } else {
        StrictSeparators(a, leafCap, nodeCap, k - 1);
        StrictIsNearly(a.tree.levels[k - 1]);
      }
      AboveAt(a.pages, a.tree, k - 1, nodeCap);
      StrictUp(a.pages, a.tree, k - 1, nodeCap);
    }
  }

  lemma LowestStrict(a: State, leafCap: nat, nodeCap: nat)
    requires Legal(a, leafCap, nodeCap, 0) && Distinct(Contents(a.pages, a.tree.levels[0]))
    requires leafCap >= 4 || Anchored(a.pages, a.tree.levels[0])
    ensures StrictLevel(a.tree.levels[0])
  {
    hide LeavesOK, Contents, Distinct, Anchored, StrictLevel;
    if leafCap >= 4 {
      LeavesNotNull(a, leafCap, nodeCap);
      StrictByTwo(a.pages, a.tree.levels[0], leafCap);
    } else {
      SeparatedByAnchors(a.pages, a.tree.levels[0], leafCap);
    }
  }

  lemma SeparatedNearly(s: Store, leaves: Level, cap: nat)
    requires Separated(s, leaves, cap)
    ensures NearlyStrict(leaves)
  {
  }

  // ------------------------------------------------- a file of three levels

  function LeafWith(parent: nat, left: nat, right: nat, keys: seq<int>): Page {
    LeafPage(parent, left, right, seq(|keys|, i requires 0 <= i < |keys| => Tuple(keys[i], [])))
  }

  /** Leaves of the keys 1 | 2 | 3 | 4 under pages with the entries 2 and 4, under a root
      with the entry 2. */
  function ThreeLevels(): State {
    State(map[0 := RootPtrPage(7, 0, Internal),
              1 := LeafWith(5, 0, 2, [1]), 2 := LeafWith(5, 1, 3, [2]), 3 := LeafWith(6, 2, 4, [3]), 4 := LeafWith(6, 3, 0, [4]),
              5 := InternalPage(7, Leaf, [Slot(0, 1), Slot(2, 2)]),
              6 := InternalPage(7, Leaf, [Slot(0, 3), Slot(4, 4)]),
              7 := InternalPage(0, Internal, [Slot(0, 5), Slot(2, 6)])],
          {1, 2, 3, 4, 5, 6, 7},
          ThreeLevelsTree())
  }

  function ThreeLevelsTree(): Tree {
    Tree([[Slot(0, 1), Slot(2, 2), Slot(2, 3), Slot(4, 4)], [Slot(0, 5), Slot(2, 6)], [Slot(0, 7)]],
         map[1 := 0, 2 := 0, 3 := 0, 4 := 0, 5 := 1, 6 := 1, 7 := 2])
  }

  /** It is legal and its keys are distinct, but the key of the root is not larger than every
      key of the page on its left, though the children of the root are internal pages.  So
      leaves of four tuples are needed in StrictSeparators. */
  lemma NotStrict(leafCap: nat)
    requires leafCap == 2 || leafCap == 3
    ensures Legal(ThreeLevels(), leafCap, 3, 0)
    ensures Distinct(Contents(ThreeLevels().pages, ThreeLevels().tree.levels[0]))
    ensures !StrictTree(ThreeLevels().pages, ThreeLevels().pages[0].root, 2)
    ensures !StrictLevel(ThreeLevels().tree.levels[0])
  {
    hide Legal, Contents;
    ThreeLevelsLegal(leafCap, 3);
    ThreeLevelsContents();
    var s := ThreeLevels().pages;
    assert SlotsOf(s, 5)[1].key == 2;
    assert !KeysBelow(SlotsOf(s, 5), 2);
    assert !StrictEntry(s, 7, 1);
    assert ThreeLevels().tree.levels[0][1].key == ThreeLevels().tree.levels[0][2].key;
  }

  lemma ThreeLevelsContents()
    ensures Contents(ThreeLevels().pages, ThreeLevels().tree.levels[0]) ==
            [Tuple(1, []), Tuple(2, []), Tuple(3, []), Tuple(4, [])]
  {
    hide Contents;
    var s, leaves := ThreeLevels().pages, ThreeLevels().tree.levels[0];
    NextContents(s, leaves, 0);
    NextContents(s, leaves, 1);
    NextContents(s, leaves, 2);
    NextContents(s, leaves, 3);
    assert leaves[0..] == leaves;
  }

  lemma NextContents(s: Store, leaves: Level, i: nat)
    requires i < |leaves|
    ensures Contents(s, leaves[i..]) == TuplesOf(s, leaves[i].child) + Contents(s, leaves[i + 1..])
    ensures i + 1 == |leaves| ==> Contents(s, leaves[i..]) == TuplesOf(s, leaves[i].child)
  {
    assert leaves[i..][1..] == leaves[i + 1..];
  }

  /** With pages of four entries it is legal too, and page 5, which is not the root, has one
      entry: it is less than half full. */
  lemma NotHalfFull()
    ensures Legal(ThreeLevels(), 2, 4, 0)
    ensures ParentOf(ThreeLevels().pages, 5) != 0 && |SlotsOf(ThreeLevels().pages, 5)| - 1 == 4 / 2 - 1
  {
    hide Legal;
    ThreeLevelsLegal(2, 4);
  }

  lemma ThreeLevelsLegal(leafCap: nat, nodeCap: nat)
    requires (leafCap == 2 || leafCap == 3) && (nodeCap == 3 || nodeCap == 4)
    ensures Legal(ThreeLevels(), leafCap, nodeCap, 0)
  {
    hide Above, LeavesOK;
    ThreeLevelsAbove(nodeCap);
    ThreeLevelsLeaves(leafCap);
  }

  lemma ThreeLevelsLeaves(leafCap: nat)
    requires leafCap == 2 || leafCap == 3
    ensures LeavesOK(ThreeLevels().pages, ThreeLevels().tree.levels[0], leafCap, 0)
  {
    var s, leaves := ThreeLevels().pages, ThreeLevels().tree.levels[0];
    forall i | 0 <= i < |leaves|
      ensures LeafOK(s, leaves, i, leafCap, 0)
    {
      assert i == 0 || i == 1 || i == 2 || i == 3;
    }
  }

  lemma ThreeLevelsAbove(nodeCap: nat)
    requires nodeCap == 3 || nodeCap == 4
    ensures Above(ThreeLevels().pages, ThreeLevels().tree, 0, nodeCap, 0)
  {
    hide Placed, Rooted, Typed, LevelOK;
    ThreeLevelsPlaced();
    ThreeLevelsTyped();
    ThreeLevelsTop(nodeCap);
    ThreeLevelsMiddle(nodeCap);
  }

  lemma ThreeLevelsTyped()
    ensures Rooted(ThreeLevels().pages, ThreeLevels().tree) && Typed(ThreeLevels().pages, ThreeLevels().tree)
  {
  }

  lemma ThreeLevelsTop(nodeCap: nat)
    requires nodeCap == 3 || nodeCap == 4
    ensures LevelOK(ThreeLevels().pages, ThreeLevels().tree, 2, nodeCap, 0)
  {
    ExpandSingle(ThreeLevels().pages, Slot(0, 7));
  }

  lemma ThreeLevelsMiddle(nodeCap: nat)
    requires nodeCap == 3 || nodeCap == 4
    ensures LevelOK(ThreeLevels().pages, ThreeLevels().tree, 1, nodeCap, 0)
  {
    hide Filled, Linked;
    ThreeLevelsFilled(nodeCap);
    ThreeLevelsLinked();
  }

  lemma ThreeLevelsFilled(nodeCap: nat)
    requires nodeCap == 3 || nodeCap == 4
    ensures Filled(ThreeLevels().pages, ThreeLevels().tree, 1, nodeCap, 0)
  {
  }

  lemma ThreeLevelsLinked()
    ensures Linked(ThreeLevels().pages, ThreeLevels().tree.levels[1], ThreeLevels().tree.levels[0])
  {
    ExpandTwo(ThreeLevels().pages, Slot(0, 5), Slot(2, 6));
  }

  lemma ThreeLevelsPlaced()
    ensures Placed(ThreeLevelsTree())
  {
    hide Holds, NoDup;
    ThreeLevelsHold();
    ThreeLevelsDistinct();
  }

  lemma ThreeLevelsDistinct()
    ensures forall i :: 0 <= i < |ThreeLevelsTree().levels| ==> NoDup(ThreeLevelsTree().levels[i])
  {
    var t := ThreeLevelsTree();
    assert NoDup(t.levels[0]) && NoDup(t.levels[1]) && NoDup(t.levels[2]);
  }

  lemma ThreeLevelsHold()
    ensures forall p :: p in ThreeLevelsTree().heightOf ==>
              ThreeLevelsTree().heightOf[p] < 3 && Holds(ThreeLevelsTree().levels[ThreeLevelsTree().heightOf[p]], p)
  {
    var t := ThreeLevelsTree();
    var leaves, middle, top := t.levels[0], t.levels[1], t.levels[2];
    assert leaves[0].child == 1 && leaves[1].child == 2 && leaves[2].child == 3 && leaves[3].child == 4;
    assert middle[0].child == 5 && middle[1].child == 6 && top[0].child == 7;
  }

  // ------------------------------------------------------------------ ties

  /** A root over leaves with the given keys, and the separators between them. */
  function Flat(separators: seq<int>, leaves: seq<seq<int>>): State
    requires |separators| == |leaves|
  {
    State(map p: nat | p <= |leaves| + 1 :: FlatPage(separators, leaves, p),
          FlatTree(separators).heightOf.Keys,
          FlatTree(separators))
  }

  function FlatPage(separators: seq<int>, leaves: seq<seq<int>>, p: nat): Page
    requires p <= |leaves| + 1
  {
    var root := |leaves| + 1;
    if p == 0 then RootPtrPage(root, 0, Internal)
    else if p == root then InternalPage(0, Leaf, FlatSlots(separators))
    else LeafWith(root, p - 1, if p + 1 < root then p + 1 else 0, leaves[p - 1])
  }

  function FlatSlots(separators: seq<int>): seq<Slot> {
    seq(|separators|, i requires 0 <= i < |separators| => Slot(separators[i], i + 1))
  }

  function FlatTree(separators: seq<int>): Tree {
    Tree([FlatSlots(separators), [Slot(0, |separators| + 1)]],
         map p: nat | 1 <= p <= |separators| + 1 :: FlatHeight(p, |separators|))
  }

  function FlatHeight(p: nat, n: nat): nat {
    if p <= n then 0 else 1
  }

  /** Leaf i lies between its separators and is full enough. */
  ghost predicate FlatLeaf(separators: seq<int>, keys: seq<int>, i: nat, leafCap: nat)
    requires i < |separators|
  {
    && (forall x, y :: 0 <= x <= y < |keys| ==> keys[x] <= keys[y])
    && (forall x :: 0 <= x < |keys| ==>
          (i > 0 ==> separators[i] <= keys[x]) && (i + 1 < |separators| ==> keys[x] <= separators[i + 1]))
    && leafCap / 2 <= |keys| <= leafCap
  }

  ghost predicate FlatOK(separators: seq<int>, leaves: seq<seq<int>>, leafCap: nat, nodeCap: nat) {
    && 2 <= |separators| == |leaves| <= nodeCap + 1
    && separators[0] == 0
    && (forall i, j :: 1 <= i <= j < |separators| ==> separators[i] <= separators[j])
    && forall i :: 0 <= i < |leaves| ==> FlatLeaf(separators, leaves[i], i, leafCap)
  }

  lemma FlatLegal(separators: seq<int>, leaves: seq<seq<int>>, leafCap: nat, nodeCap: nat)
    requires FlatOK(separators, leaves, leafCap, nodeCap)
    ensures Legal(Flat(separators, leaves), leafCap, nodeCap, 0)
  {
    hide LeavesOK, Placed, Rooted, Typed, LevelOK;
    FlatPlaced(separators);
    FlatLevel(separators, leaves, leafCap, nodeCap);
    FlatLeaves(separators, leaves, leafCap, nodeCap);
  }

  lemma FlatLeaves(separators: seq<int>, leaves: seq<seq<int>>, leafCap: nat, nodeCap: nat)
    requires FlatOK(separators, leaves, leafCap, nodeCap)
    ensures LeavesOK(Flat(separators, leaves).pages, FlatSlots(separators), leafCap, 0)
  {
    forall i | 0 <= i < |leaves|
      ensures LeafOK(Flat(separators, leaves).pages, FlatSlots(separators), i, leafCap, 0)
    {
      assert FlatLeaf(separators, leaves[i], i, leafCap);
    }
  }

  lemma FlatLevel(separators: seq<int>, leaves: seq<seq<int>>, leafCap: nat, nodeCap: nat)
    requires FlatOK(separators, leaves, leafCap, nodeCap)
    ensures var a := Flat(separators, leaves);
            LevelOK(a.pages, a.tree, 1, nodeCap, 0) && Rooted(a.pages, a.tree) && Typed(a.pages, a.tree)
  {
    ExpandSingle(Flat(separators, leaves).pages, Slot(0, |separators| + 1));
  }

  lemma FlatPlaced(separators: seq<int>)
    ensures Placed(FlatTree(separators))
  {
    var t := FlatTree(separators);
    forall p | p in t.heightOf
      ensures t.heightOf[p] < 2 && Holds(t.levels[t.heightOf[p]], p)
    {
      if p <= |separators| {
        assert t.levels[0][p - 1].child == p;
      } else {
        assert t.levels[1][0].child == p;
      }
    }
  }

  /** Three entries over four full leaves, with one key throughout. */
  function EqualKeys(): State {
    Flat([0, 5, 5, 5], [[5, 5], [5, 5], [5, 5], [5, 5]])
  }

  /** It is a legal tree, and inserting the key once more ends at a failed assertion. */
  lemma EqualKeysTie()
    ensures Legal(EqualKeys(), 2, 3, 0)
    ensures InsertTies(EqualKeys().pages, 5, 2, 3, 2)
  {
    hide Legal, InsertTies;
    FlatLegal([0, 5, 5, 5], [[5, 5], [5, 5], [5, 5], [5, 5]], 2, 3);
    EqualKeysSearch();
  }

  lemma EqualKeysSearch()
    ensures InsertTies(EqualKeys().pages, 5, 2, 3, 2)
  {
    var s := EqualKeys().pages;
    var slots := SlotsOf(s, 5);
    assert ChildFor(slots, Some(5), 1) == 0;
    FlatTie(s, 5, 2, 3, 5, 1);
  }

  /** A search that comes to a full leaf whose cut is at the key its full parent pushes up. */
  lemma FlatTie(s: Store, key: int, leafCap: nat, nodeCap: nat, q: nat, p: nat)
    requires 0 in s && s[0].RootPtrPage? && s[0].root == q && q != 0 && leafCap > 0 && nodeCap >= 3
    requires var slots := SlotsOf(s, q);
             && |slots| == nodeCap + 1 && slots[ChildFor(slots, Some(key), 1)].child == p
             && HasChild(LeftHalf(slots, Cut(nodeCap)), p) && ParentOf(s, p) == q
             && |TuplesOf(s, p)| == leafCap && TuplesOf(s, p)[leafCap / 2].key == slots[Cut(nodeCap)].key
    ensures InsertTies(s, key, leafCap, nodeCap, 2)
  {
    assert LeafFor(s, q, Some(key), 1) == LeafFor(s, p, Some(key), 0) == p;
    WouldTieStep(s, p, TuplesOf(s, p)[leafCap / 2].key, nodeCap, 1);
  }

  /** Five entries over six leaves of at most two tuples, no key twice. */
  function TwoTuples(): State {
    Flat([0, 3, 5, 7, 9, 11], [[1], [3], [5, 7], [8], [9], [11]])
  }

  /** Leaves of three tuples are needed: with two, inserting a new key into a legal file
      with distinct keys can end at the failed assertion. */
  lemma DistinctKeysTie()
    ensures Legal(TwoTuples(), 2, 5, 0)
    ensures Distinct(Contents(TwoTuples().pages, TwoTuples().tree.levels[0]))
    ensures forall t :: t in Contents(TwoTuples().pages, TwoTuples().tree.levels[0]) ==> t.key != 6
    ensures InsertTies(TwoTuples().pages, 6, 2, 5, 2)
  {
    hide Legal, InsertTies, Contents;
    FlatLegal([0, 3, 5, 7, 9, 11], [[1], [3], [5, 7], [8], [9], [11]], 2, 5);
    TwoTuplesContents();
    TwoTuplesSearch();
  }

  lemma TwoTuplesContents()
    ensures Contents(TwoTuples().pages, TwoTuples().tree.levels[0]) ==
            [Tuple(1, []), Tuple(3, []), Tuple(5, []), Tuple(7, []), Tuple(8, []), Tuple(9, []), Tuple(11, [])]
  {
    hide Contents;
    var s, leaves := TwoTuples().pages, TwoTuples().tree.levels[0];
    NextContents(s, leaves, 0);
    NextContents(s, leaves, 1);
    NextContents(s, leaves, 2);
    NextContents(s, leaves, 3);
    NextContents(s, leaves, 4);
    NextContents(s, leaves, 5);
    assert leaves[0..] == leaves;
  }

  lemma TwoTuplesSearch()
    ensures InsertTies(TwoTuples().pages, 6, 2, 5, 2)
  {
    var s := TwoTuples().pages;
    var slots := SlotsOf(s, 7);
    assert ChildFor(slots, Some(6), 1) == ChildFor(slots, Some(6), 2) == ChildFor(slots, Some(6), 3) == 2;
    assert LeftHalf(slots, 3)[2].child == 3;
    FlatTie(s, 6, 2, 5, 7, 3);
  }

  // ------------------------------------------------------------------ equal keys

  /** An insertion into leaf i, where the key belongs and there is room, is sorted insertion
      into the contents of the whole file exactly if no other tuple of a later leaf has the
      key: the leaves after it may begin with it. */
  lemma LastOfEqualExactly(a: State, s': Store, leafCap: nat, nodeCap: nat, i: nat, t: Tuple)
    requires Legal(a, leafCap, nodeCap, 0) && i < |a.tree.levels[0]|
    requires forall x :: 1 <= x <= i ==> a.tree.levels[0][x].key < t.key
    requires forall x :: i < x < |a.tree.levels[0]| ==> t.key <= a.tree.levels[0][x].key
    requires LeafPut(a.pages, s', a.tree.levels[0], i, SortedInsert(TuplesOf(a.pages, a.tree.levels[0][i].child), t))
    ensures var leaves := a.tree.levels[0];
            Contents(s', leaves) == SortedInsert(Contents(a.pages, leaves), t) <==>
              forall u :: u in Contents(a.pages, leaves[i + 1..]) && u.key == t.key ==> u == t
  {
    hide Above, LeavesOK, Contents, SortedInsert, SortedTuples, NoDup;
    LegalRoot(a, leafCap, nodeCap, 0);
    var s, leaves := a.pages, a.tree.levels[0];
    var front, ts, back := Contents(s, leaves[..i]), TuplesOf(s, leaves[i].child), Contents(s, leaves[i + 1..]);
    LeafPlace(a, leafCap, nodeCap, 0, i);
    LegalSorted(a, leafCap, nodeCap);
    PutContents(s, s', leaves, i, SortedInsert(ts, t));
    AroundLeaf(a, leafCap, nodeCap, i, t.key);
    forall u | u in front
      ensures u.key < t.key
    {
      var x, y := TupleOnLeaf(s, leaves[..i], u);
    }
    forall u | u in back
      ensures t.key <= u.key
    {
      var x, y := TupleOnLeaf(s, leaves[i + 1..], u);
      assert leaves[i + 1..][x] == leaves[i + 1 + x];
    }
    InsertedLast(front, ts, back, t);
  }

  lemma AroundLeaf(a: State, leafCap: nat, nodeCap: nat, i: nat, key: int)
    requires Legal(a, leafCap, nodeCap, 0) && i < |a.tree.levels[0]|
    requires forall x :: 1 <= x <= i ==> a.tree.levels[0][x].key < key
    requires forall x :: i < x < |a.tree.levels[0]| ==> key <= a.tree.levels[0][x].key
    ensures a.tree.levels != []
    ensures var s, leaves := a.pages, a.tree.levels[0];
            && (forall x, y :: 0 <= x < i && 0 <= y < |TuplesOf(s, leaves[x].child)| ==> TuplesOf(s, leaves[x].child)[y].key < key)
            && (forall x, y :: i < x < |leaves| && 0 <= y < |TuplesOf(s, leaves[x].child)| ==>
                  key <= TuplesOf(s, leaves[x].child)[y].key)
  {
    hide LeavesOK;
    FoundLeaf(a.pages, a.tree.levels[0], leafCap, i, key);
  }

  /** Every tuple is on some leaf. */
  lemma {:induction false} TupleOnLeaf(s: Store, leaves: Level, u: Tuple) returns (x: nat, y: nat)
    requires u in Contents(s, leaves)
    ensures x < |leaves| && y < |TuplesOf(s, leaves[x].child)| && TuplesOf(s, leaves[x].child)[y] == u
  {
    var ts := TuplesOf(s, leaves[0].child);
    if u in ts {
      y :| 0 <= y < |ts| && ts[y] == u;
      x := 0;
    } else {
      x, y := TupleOnLeaf(s, leaves[1..], u);
      x := x + 1;
    }
  }

  lemma InsertedLast(front: seq<Tuple>, ts: seq<Tuple>, back: seq<Tuple>, t: Tuple)
    requires SortedTuples(front + ts + back) && SortedTuples(ts)
    requires (forall u :: u in front ==> u.key < t.key) && forall u :: u in back ==> t.key <= u.key
    ensures front + SortedInsert(ts, t) + back == SortedInsert(front + ts + back, t) <==>
              forall u :: u in back && u.key == t.key ==> u == t
  {
    var all := front + ts + back;
    var p, n := TwoPlaces(front, ts, back, t);
    hide SortedInsert, SortedTuples;
    MovedOver(all, p, n, t);
    if forall k :: p <= k < n ==> all[k] == t {
      forall u | u in back && u.key == t.key
        ensures u == t
      {
        var y :| 0 <= y < |back| && back[y] == u;
        assert all[|front| + |ts| + y] == u;
      }
    }
    if forall u :: u in back && u.key == t.key ==> u == t {
      forall k | p <= k < n
        ensures all[k] == t
      {
        assert all[k] == back[k - |front| - |ts|];
      }
    }
  }

  /** Where a tuple goes among the tuples of its leaf, and among all: what lies between are
      the tuples of later leaves with its key. */
  lemma TwoPlaces(front: seq<Tuple>, ts: seq<Tuple>, back: seq<Tuple>, t: Tuple) returns (p: nat, n: nat)
    requires SortedTuples(front + ts + back) && SortedTuples(ts)
    requires (forall u :: u in front ==> u.key < t.key) && forall u :: u in back ==> t.key <= u.key
    ensures var all := front + ts + back;
            && p <= n <= |all|
            && front + SortedInsert(ts, t) + back == all[..p] + [t] + all[p..]
            && SortedInsert(all, t) == all[..n] + [t] + all[n..]
            && (forall k :: p <= k < n ==> |front| + |ts| <= k && all[k].key == t.key)
            && (forall k :: |front| + |ts| <= k < |all| && all[k].key == t.key ==> p <= k < n)
  {
    hide SortedInsert;
    var all := front + ts + back;
    var j := SortedInsertPlace(ts, t);
    n := SortedInsertPlace(all, t);
    p := |front| + j;
    PlaceInMiddle(front, ts, back, t, j);
    forall k | 0 <= k < p
      ensures all[k].key <= t.key
    {
      assert all[k] == if k < |front| then front[k] else ts[k - |front|];
      assert k < |front| ==> front[k] in front;
    }
    assert p > 0 ==> all[p - 1].key <= t.key;
    if j < |ts| {
      assert all[p] == ts[j];
    }
    forall k | |front| + |ts| <= k < |all|
      ensures t.key <= all[k].key
    {
      assert all[k] == back[k - |front| - |ts|];
    }
  }

  lemma PlaceInMiddle(front: seq<Tuple>, ts: seq<Tuple>, back: seq<Tuple>, t: Tuple, j: nat)
    requires j <= |ts|
    ensures var all, p := front + ts + back, |front| + j;
            front + (ts[..j] + [t] + ts[j..]) + back == all[..p] + [t] + all[p..]
  {
    var all, p := front + ts + back, |front| + j;
    assert all[..p] == front + ts[..j] && all[p..] == ts[j..] + back;
  }

  /** Inserting at p or at n is the same exactly if t is all that lies between. */
  lemma MovedOver(ts: seq<Tuple>, p: nat, n: nat, t: Tuple)
    requires p <= n <= |ts|
    ensures ts[..p] + [t] + ts[p..] == ts[..n] + [t] + ts[n..] <==> forall k :: p <= k < n ==> ts[k] == t
  {
    var x, y := ts[..p] + [t] + ts[p..], ts[..n] + [t] + ts[n..];
    if x == y {
      AllTheSame(ts, x, p, n, t);
    }
    if forall k :: p <= k < n ==> ts[k] == t {
      assert forall k :: 0 <= k < |x| ==> x[k] == y[k];
    }
  }

  lemma {:induction false} AllTheSame(ts: seq<Tuple>, x: seq<Tuple>, p: nat, n: nat, t: Tuple)
    requires p <= n <= |ts| && x == ts[..p] + [t] + ts[p..]
    requires forall k :: p <= k < n ==> x[k] == ts[k]
    ensures forall k :: p <= k < n ==> ts[k] == t
  {
    if p < n {
      AllTheSame(ts, x, p, n - 1, t);
      assert x[n - 1] == if n - 1 == p then t else ts[n - 2];
    }
  }

  /** The key 5 at the end of one leaf and at the beginning of the next. */
  function EqualNeighbours(): State {
    Flat([0, 5], [[1, 5], [5, 6]])
  }

  /** A legal file in which a tuple with the key 5 goes to the first leaf, before another
      tuple with that key. */
  lemma NotLastOfEqual(s': Store, t: Tuple)
    requires t.key == 5 && t.payload != []
    requires LeafPut(EqualNeighbours().pages, s', EqualNeighbours().tree.levels[0], 0,
                     SortedInsert(TuplesOf(EqualNeighbours().pages, 1), t))
    ensures Legal(EqualNeighbours(), 3, 3, 0) && LeafHasSpace(EqualNeighbours().pages, 5, 3, 2)
    ensures Contents(s', EqualNeighbours().tree.levels[0]) !=
            SortedInsert(Contents(EqualNeighbours().pages, EqualNeighbours().tree.levels[0]), t)
  {
    hide Legal, Contents, SortedInsert;
    var a := EqualNeighbours();
    var leaves := a.tree.levels[0];
    FlatLegal([0, 5], [[1, 5], [5, 6]], 3, 3);
    LastOfEqualExactly(a, s', 3, 3, 0, t);
    ContentsSingle(a.pages, leaves[1]);
    assert leaves[1..] == [leaves[1]];
    assert TuplesOf(a.pages, 2)[0] in Contents(a.pages, leaves[1..]);
  }
}
