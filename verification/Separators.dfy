/** When the separators of a tree are strict: above the leaves, a key larger than every key
    of the child on its left and smaller than every key of the child on its right. */
module Separators {
  import opened Pages
  import opened Levels
  import opened Trees
  import opened Merging
  import opened Leaves
  import opened LegalTrees

  // ------------------------------------------------------------------ strict levels

  ghost predicate StrictLevel(level: Level) {
    forall i, j :: 1 <= i < j < |level| ==> level[i].key < level[j].key
  }

  /** Separators of a level that are not neighbours differ. */
  ghost predicate NearlyStrict(level: Level) {
    forall i, j :: 1 <= i < j < |level| && i + 2 <= j ==> level[i].key < level[j].key
  }

  lemma StrictIsNearly(level: Level)
    requires StrictLevel(level)
    ensures NearlyStrict(level)
  {
  }

  /** The separators of a level are among those of the level below, and no two of them are
      neighbours there, as every page has two children. */
  lemma StrictUp(s: Store, t: Tree, k: nat, cap: nat)
    requires Above(s, t, k, cap, 0) && k + 1 < |t.levels| && NearlyStrict(t.levels[k])
    ensures StrictLevel(t.levels[k + 1])
  {
    hide Above, Linked, Filled, Placed, SortedLevel, NoDup, Typed, Rooted, Expand, Offset, SlotsOf;
    var up, down := t.levels[k + 1], t.levels[k];
    LevelBelow(s, t, k, cap, 0);
    SlotsNonEmpty(s, t, k + 1, cap, 0);
    forall i, j | 1 <= i < j < |up|
      ensures up[i].key < up[j].key
    {
      NodeKeys(s, t, k + 1, cap, 0, i);
      ChildAt(s, up, i, 0);
      ChildAt(s, up, j, 0);
      OffsetMonotone(s, up, 0, i);
      OffsetNext(s, up, i);
      OffsetMonotone(s, up, i + 1, j);
    }
  }

  /** Every level is strict when the lowest, the leaf level, is. */
  lemma {:induction false} StrictEverywhere(s: Store, t: Tree, k: nat, cap: nat)
    requires Above(s, t, 0, cap, 0) && k < |t.levels| && StrictLevel(t.levels[0])
    ensures StrictLevel(t.levels[k])
  {
    hide Above, StrictLevel, NearlyStrict;
    if k > 0 {
      StrictEverywhere(s, t, k - 1, cap);
      AboveAt(s, t, k - 1, cap);
      StrictIsNearly(t.levels[k - 1]);
      StrictUp(s, t, k - 1, cap);
    }
  }

  ghost predicate StrictLevels(t: Tree) {
    forall k :: 0 <= k < |t.levels| ==> StrictLevel(t.levels[k])
  }

  lemma StrictFromLeaves(a: State, leafCap: nat, nodeCap: nat, ex: nat)
    requires Legal(a, leafCap, nodeCap, ex)
    ensures a.tree.levels != [] && (StrictLevels(a.tree) <==> StrictLevel(a.tree.levels[0]))
  {
    hide StrictLevel, Above, LeavesOK;
    LegalRoot(a, leafCap, nodeCap, ex);
    if StrictLevel(a.tree.levels[0]) {
      forall k | 0 <= k < |a.tree.levels|
        ensures StrictLevel(a.tree.levels[k])
      {
        StrictEverywhere(a.pages, a.tree, k, nodeCap);
      }
    }
  }

  // ------------------------------------------------- the documented condition

  ghost predicate KeysBelow(slots: seq<Slot>, key: int) {
    forall d :: 1 <= d < |slots| ==> slots[d].key < key
  }

  ghost predicate KeysAbove(slots: seq<Slot>, key: int) {
    forall d :: 1 <= d < |slots| ==> key < slots[d].key
  }

  /** Entry c of page p: its key is larger than every key of the page on its left, and
      smaller than every key of the page on its right. */
  ghost predicate StrictEntry(s: Store, p: nat, c: nat)
    requires 0 < c < |SlotsOf(s, p)|
  {
    var slots := SlotsOf(s, p);
    KeysBelow(SlotsOf(s, slots[c - 1].child), slots[c].key) && KeysAbove(SlotsOf(s, slots[c].child), slots[c].key)
  }

  ghost predicate StrictNode(s: Store, p: nat) {
    forall c :: 1 <= c < |SlotsOf(s, p)| ==> StrictEntry(s, p, c)
  }

  /** Every page below p, which is h levels above the leaves, that has internal pages as
      children is strict. */
  ghost predicate StrictTree(s: Store, p: nat, h: nat)
    decreases h, 1
  {
    h >= 2 ==> StrictNode(s, p) && forall c :: 0 <= c < |SlotsOf(s, p)| ==> StrictChild(s, p, c, h)
  }

  ghost predicate StrictChild(s: Store, p: nat, c: nat, h: nat)
    requires c < |SlotsOf(s, p)| && h > 0
    decreases h, 0
  {
    StrictTree(s, SlotsOf(s, p)[c].child, h - 1)
  }

  /** The key of entry c of a page differs from the last key of the page on its left and
      from the first key of the page on its right. */
  ghost predicate Apart(s: Store, p: nat, c: nat)
    requires 0 < c < |SlotsOf(s, p)|
  {
    var slots := SlotsOf(s, p);
    var l, r := SlotsOf(s, slots[c - 1].child), SlotsOf(s, slots[c].child);
    && (|l| > 1 ==> l[|l| - 1].key != slots[c].key)
    && (|r| > 1 ==> r[1].key != slots[c].key)
  }

  /** In a legal tree the condition on an entry comes down to two comparisons. */
  lemma StrictExactly(s: Store, t: Tree, k: nat, cap: nat, u: nat, c: nat)
    requires Above(s, t, k, cap, 0) && k + 2 < |t.levels| && u < |t.levels[k + 2]|
    requires 0 < c < |SlotsOf(s, t.levels[k + 2][u].child)|
    ensures StrictEntry(s, t.levels[k + 2][u].child, c) <==> Apart(s, t.levels[k + 2][u].child, c)
  {
    hide Above, SortedSlots;
    AboveUp(s, t, k, cap);
    var p := t.levels[k + 2][u].child;
    var slots := SlotsOf(s, p);
    ChildBounds(s, t, k + 1, u, c - 1, cap);
    ChildBounds(s, t, k + 1, u, c, cap);
    var x := Offset(s, t.levels[k + 2], u) + c;
    NodeAlone(s, t, k, x - 1, cap);
    NodeAlone(s, t, k, x, cap);
    EntryExactly(SlotsOf(s, slots[c - 1].child), SlotsOf(s, slots[c].child), slots[c].key);
  }

  lemma EntryExactly(l: seq<Slot>, r: seq<Slot>, key: int)
    requires SortedSlots(l) && SortedSlots(r)
    requires forall d :: 1 <= d < |l| ==> l[d].key <= key
    requires forall d :: 1 <= d < |r| ==> key <= r[d].key
    ensures KeysBelow(l, key) && KeysAbove(r, key) <==>
              (|l| > 1 ==> l[|l| - 1].key != key) && (|r| > 1 ==> r[1].key != key)
  {
    if (|l| > 1 ==> l[|l| - 1].key != key) && (|r| > 1 ==> r[1].key != key) {
      forall d | 1 <= d < |l|
        ensures l[d].key < key
      {
        assert l[d].key <= l[|l| - 1].key;
      }
      forall d | 1 <= d < |r|
        ensures key < r[d].key
      {
        assert r[1].key <= r[d].key;
      }
    }
  }

  ghost predicate ApartNode(s: Store, p: nat) {
    forall c :: 1 <= c < |SlotsOf(s, p)| ==> Apart(s, p, c)
  }

  /** Every entry two or more levels above the leaves, below page p, is apart. */
  ghost predicate ApartTree(s: Store, p: nat, h: nat)
    decreases h, 1
  {
    h >= 2 ==> ApartNode(s, p) && forall c :: 0 <= c < |SlotsOf(s, p)| ==> ApartChild(s, p, c, h)
  }

  ghost predicate ApartChild(s: Store, p: nat, c: nat, h: nat)
    requires c < |SlotsOf(s, p)| && h > 0
    decreases h, 0
  {
    ApartTree(s, SlotsOf(s, p)[c].child, h - 1)
  }

  lemma {:induction false} StrictNodes(s: Store, t: Tree, cap: nat, k: nat, j: nat)
    requires Above(s, t, 0, cap, 0) && k < |t.levels| && j < |t.levels[k]|
    ensures StrictTree(s, t.levels[k][j].child, k) <==> ApartTree(s, t.levels[k][j].child, k)
    decreases k
  {
    hide Above, StrictEntry, Apart, Offset;
    if k >= 2 {
      AboveAt(s, t, k - 1, cap);
      AboveAt(s, t, k - 2, cap);
      var p := t.levels[k][j].child;
      forall c | 1 <= c < |SlotsOf(s, p)|
        ensures StrictEntry(s, p, c) <==> Apart(s, p, c)
      {
        StrictExactly(s, t, k - 2, cap, j, c);
      }
      forall c | 0 <= c < |SlotsOf(s, p)|
        ensures StrictChild(s, p, c, k) <==> ApartChild(s, p, c, k)
      {
        ChildBounds(s, t, k - 1, j, c, cap);
        StrictNodes(s, t, cap, k - 1, Offset(s, t.levels[k], j) + c);
      }
    }
  }

  /** A legal file meets the documented condition exactly when every entry above pages with
      internal children is apart. */
  lemma StrictTreeExactly(a: State, leafCap: nat, nodeCap: nat)
    requires Legal(a, leafCap, nodeCap, 0)
    ensures 0 in a.pages && a.pages[0].RootPtrPage? && a.tree.levels != []
    ensures var root, h := a.pages[0].root, |a.tree.levels| - 1;
            StrictTree(a.pages, root, h) <==> ApartTree(a.pages, root, h)
  {
    hide LeavesOK, StrictTree, ApartTree;
    LegalRoot(a, leafCap, nodeCap, 0);
    StrictNodes(a.pages, a.tree, nodeCap, |a.tree.levels| - 1, 0);
  }

  lemma StrictPair(level: Level, i: nat)
    requires StrictLevel(level) && 0 < i && i + 1 < |level|
    ensures level[i].key < level[i + 1].key
  {
  }

  /** The keys beside the separator between two neighbouring nodes. */
  lemma BesideSeparator(s: Store, up: Level, down: Level, x: nat)
    requires Expand(s, up) == down && StrictLevel(down) && 0 < x < |up|
    requires SlotsOf(s, up[x - 1].child) != [] && SlotsOf(s, up[x].child) != []
    ensures var l, r := SlotsOf(s, up[x - 1].child), SlotsOf(s, up[x].child);
            && (|l| > 1 ==> l[|l| - 1].key < up[x].key)
            && (|r| > 1 ==> up[x].key < r[1].key)
  {
    hide Expand, Offset, StrictLevel;
    var l, r := SlotsOf(s, up[x - 1].child), SlotsOf(s, up[x].child);
    OffsetNext(s, up, x - 1);
    ChildAt(s, up, x, 0);
    if |l| > 1 {
      ChildAt(s, up, x - 1, |l| - 1);
      StrictPair(down, Offset(s, up, x) - 1);
    }
    if |r| > 1 {
      ChildAt(s, up, x, 1);
      StrictPair(down, Offset(s, up, x));
    }
  }

  /** Strict separators on the leaf level make every page above it strict. */
  lemma StrictApart(s: Store, t: Tree, k: nat, cap: nat, u: nat, c: nat)
    requires Above(s, t, k, cap, 0) && k + 2 < |t.levels| && u < |t.levels[k + 2]| && StrictLevel(t.levels[k])
    requires 0 < c < |SlotsOf(s, t.levels[k + 2][u].child)|
    ensures Apart(s, t.levels[k + 2][u].child, c)
  {
    hide Above, Expand, Linked, Filled, Placed, SortedLevel, StrictLevel, NoDup, Typed, Rooted, Offset;
    AboveUp(s, t, k, cap);
    var top, up, down := t.levels[k + 2], t.levels[k + 1], t.levels[k];
    LevelBelow(s, t, k, cap, 0);
    LevelBelow(s, t, k + 1, cap, 0);
    KidNeighbours(s, top, up, u, c - 1);
    KidNeighbours(s, top, up, u, c);
    var x := Offset(s, top, u) + c;
    SlotsNonEmpty(s, t, k + 1, cap, 0);
    BesideSeparator(s, up, down, x);
  }

  lemma {:induction false} StrictBelow(s: Store, t: Tree, cap: nat, k: nat, j: nat)
    requires Above(s, t, 0, cap, 0) && StrictLevel(t.levels[0]) && k < |t.levels| && j < |t.levels[k]|
    ensures StrictTree(s, t.levels[k][j].child, k)
    decreases k
  {
    hide Above, StrictLevel, StrictEntry, Apart, Offset;
    if k >= 2 {
      AboveAt(s, t, k - 1, cap);
      AboveAt(s, t, k - 2, cap);
      StrictEverywhere(s, t, k - 2, cap);
      var p := t.levels[k][j].child;
      forall c | 1 <= c < |SlotsOf(s, p)|
        ensures StrictEntry(s, p, c)
      {
        StrictApart(s, t, k - 2, cap, j, c);
        StrictExactly(s, t, k - 2, cap, j, c);
      }
      forall c | 0 <= c < |SlotsOf(s, p)|
        ensures StrictChild(s, p, c, k)
      {
        ChildBounds(s, t, k - 1, j, c, cap);
        StrictBelow(s, t, cap, k - 1, Offset(s, t.levels[k], j) + c);
      }
    }
  }

  /** A legal file with strict separators meets the documented condition. */
  lemma StrictFile(a: State, leafCap: nat, nodeCap: nat)
    requires Legal(a, leafCap, nodeCap, 0)
    requires a.tree.levels != [] ==> StrictLevel(a.tree.levels[0])
    ensures 0 in a.pages && a.pages[0].RootPtrPage? && a.tree.levels != []
    ensures StrictTree(a.pages, a.pages[0].root, |a.tree.levels| - 1)
  {
    hide LeavesOK, StrictLevel, StrictTree;
    LegalRoot(a, leafCap, nodeCap, 0);
    StrictBelow(a.pages, a.tree, nodeCap, |a.tree.levels| - 1, 0);
  }

  // ------------------------------------------------- what keeps separators strict

  /** A new separator keeps a level strict exactly when it differs from those on its sides. */
  lemma StrictInsert(level: Level, j: nat, x: Slot)
    requires StrictLevel(level) && j < |level|
    requires j > 0 ==> level[j].key <= x.key
    requires j + 1 < |level| ==> x.key <= level[j + 1].key
    ensures StrictLevel(InsertAfter(level, j, x)) <==>
              (j > 0 ==> level[j].key != x.key) && (j + 1 < |level| ==> x.key != level[j + 1].key)
  {
    var l := InsertAfter(level, j, x);
    if (j > 0 ==> level[j].key != x.key) && (j + 1 < |level| ==> x.key != level[j + 1].key) {
      forall a, b | 1 <= a < b < |l|
        ensures l[a].key < l[b].key
      {
        assert a <= j ==> l[a] == level[a];
        assert a > j + 1 ==> l[a] == level[a - 1];
        assert b <= j ==> l[b] == level[b];
        assert b > j + 1 ==> l[b] == level[b - 1];
        if a < j < b { assert level[a].key < level[j].key; }
        if j + 2 < b { assert level[j + 1].key < level[b - 1].key; }
      }
    }
    if StrictLevel(l) {
      assert j > 0 ==> l[j].key < l[j + 1].key;
      assert j + 1 < |level| ==> l[j + 1].key < l[j + 2].key;
    }
  }

  /** So does a changed separator; */
  lemma StrictRekey(level: Level, j: nat, key: int, p: nat)
    requires StrictLevel(level) && j + 1 < |level|
    requires j > 0 ==> level[j].key <= key
    requires j + 2 < |level| ==> key <= level[j + 2].key
    ensures StrictLevel(level[j + 1 := Slot(key, p)]) <==>
              (j > 0 ==> level[j].key != key) && (j + 2 < |level| ==> key != level[j + 2].key)
  {
    var l := level[j + 1 := Slot(key, p)];
    if (j > 0 ==> level[j].key != key) && (j + 2 < |level| ==> key != level[j + 2].key) {
      forall a, b | 1 <= a < b < |l|
        ensures l[a].key < l[b].key
      {
        if a < j && b == j + 1 { assert level[a].key < level[j].key; }
        if a == j + 1 && j + 2 < b { assert level[j + 2].key < level[b].key; }
      }
    }
    if StrictLevel(l) {
      assert j > 0 ==> l[j].key < l[j + 1].key;
      assert j + 2 < |level| ==> l[j + 1].key < l[j + 2].key;
    }
  }

  /** and one separator fewer always does. */
  lemma StrictRemove(level: Level, j: nat)
    requires StrictLevel(level) && j < |level|
    ensures StrictLevel(RemoveAt(level, j))
  {
    var l := RemoveAt(level, j);
    assert forall i :: 0 <= i < |l| ==> l[i] == level[if i < j then i else i + 1];
  }

  /** The key that a full leaf j would be cut at is a separator on one of its sides. */
  ghost predicate EqualCut(s: Store, leaves: Level, j: nat, cap: nat)
    requires j < |leaves|
  {
    var ts := TuplesOf(s, leaves[j].child);
    && cap > 0 && |ts| == cap
    && var key := ts[cap / 2].key;
       Low(leaves, j) == Some(key) || Low(leaves, j + 1) == Some(key)
  }

  /** splitLeafPage keeps the separators of every level strict exactly when the key at the
      cut is not a separator beside the leaf. */
  lemma StrictAfterCut(a: State, leafCap: nat, nodeCap: nat, j: nat, r: nat)
    requires Legal(a, leafCap, nodeCap, 0) && leafCap >= 2 && j < |a.tree.levels[0]| && StrictLevel(a.tree.levels[0])
    requires |TuplesOf(a.pages, a.tree.levels[0][j].child)| == leafCap
    ensures var leaves := a.tree.levels[0];
            StrictLevel(InsertAfter(leaves, j, Slot(TuplesOf(a.pages, leaves[j].child)[leafCap / 2].key, r))) <==>
              !EqualCut(a.pages, leaves, j, leafCap)
  {
    hide Above, LeavesOK, StrictLevel;
    LegalRoot(a, leafCap, nodeCap, 0);
    CutKeyFits(a.pages, a.tree.levels[0], j, leafCap / 2, leafCap);
    StrictInsert(a.tree.levels[0], j, Slot(TuplesOf(a.pages, a.tree.levels[0][j].child)[leafCap / 2].key, r));
  }

  // ------------------------------------------------- the condition on pages

  /** The keys on the two sides of the leaf a search comes to, found on the way down. */
  function SidesFor(s: Store, p: nat, f: Option<int>, fuel: nat, lo: Option<int>, hi: Option<int>): (Option<int>, Option<int>)
    decreases fuel
  {
    var slots := SlotsOf(s, p);
    if fuel == 0 || slots == [] then (lo, hi)
    else
      var c := ChildFor(slots, f, 1);
      SidesFor(s, slots[c].child, f, fuel - 1, if c == 0 then lo else Some(slots[c].key),
               if c + 1 == |slots| then hi else Some(slots[c + 1].key))
  }

  /** Whether inserting a key cuts a leaf at a key that is already a separator beside it. */
  predicate CutsAtSeparator(s: Store, key: int, leafCap: nat, height: nat) {
    && height > 0 && 0 in s && s[0].RootPtrPage? && leafCap > 0
    && var leaf := LeafFor(s, s[0].root, Some(key), height - 1);
       var sides := SidesFor(s, s[0].root, Some(key), height - 1, None, None);
       && |TuplesOf(s, leaf)| == leafCap
       && (sides.0 == Some(TuplesOf(s, leaf)[leafCap / 2].key) || sides.1 == Some(TuplesOf(s, leaf)[leafCap / 2].key))
  }

  /** The keys found on the way down are the separators beside the leaf. */
  lemma {:induction false} SidesFound(s: Store, t: Tree, cap: nat, k: nat, j: nat, p: nat, category: PageType, f: Option<int>) returns (i: nat)
    requires Searching(s, t, cap, k, j, p, category, f)
    ensures Found(t, i, LeafFor(s, p, f, k), f) && i < |t.levels[0]|
    ensures SidesFor(s, p, f, k, Low(t.levels[k], j), Low(t.levels[k], j + 1)) == (Low(t.levels[0], i), Low(t.levels[0], i + 1))
    decreases k
  {
    hide Searching, Found, ChildFor, Offset, Low, Above;
    SearchPage(s, t, cap, k, j, p, category, f);
    if k == 0 {
      i := j;
    } else {
      var slots := SlotsOf(s, p);
      var c := ChildFor(slots, f, 1);
      ChildForFits(slots, f, 1);
      SearchStep(s, t, cap, k - 1, j, p, f, c);
      SearchAbove(s, t, cap, k, j, p, category, f);
      ChildBounds(s, t, k - 1, j, c, cap);
      i := SidesFound(s, t, cap, k - 1, Offset(s, t.levels[k], j) + c, slots[c].child, s[p].childCategory, f);
    }
    FoundIndex(t, i, LeafFor(s, p, f, k), f);
  }

  lemma FoundIndex(t: Tree, i: nat, p: nat, f: Option<int>)
    requires Found(t, i, p, f)
    ensures |t.levels| > 0 && i < |t.levels[0]| && t.levels[0][i].child == p
  {
  }

  lemma SearchAbove(s: Store, t: Tree, cap: nat, k: nat, j: nat, p: nat, category: PageType, f: Option<int>)
    requires Searching(s, t, cap, k, j, p, category, f) && k > 0
    ensures Above(s, t, k - 1, cap, 0) && k < |t.levels| && j < |t.levels[k]| && t.levels[k][j].child == p
  {
    AboveAt(s, t, k - 1, cap);
  }

  lemma {:induction false} ChildForFits(slots: seq<Slot>, f: Option<int>, e: nat)
    requires 1 <= e <= |slots|
    requires e > 1 ==> f.Some? && forall x :: 1 <= x < e ==> slots[x].key < f.value
    ensures var c := ChildFor(slots, f, e);
            && (f == None ==> c == 0)
            && (f.Some? ==> (forall x :: 1 <= x <= c ==> slots[x].key < f.value) &&
                            (c + 1 < |slots| ==> f.value <= slots[c + 1].key))
    decreases |slots| - e
  {
    if e < |slots| && f.Some? && slots[e].key < f.value {
      ChildForFits(slots, f, e + 1);
    }
  }

  /** An insertion ties exactly if the leaf between whose separators the key belongs is full,
      and the key at its cut ties on the levels above. */
  lemma TiesAtLeaf(a: State, leafCap: nat, nodeCap: nat, key: int, i: nat)
    requires Legal(a, leafCap, nodeCap, 0) && leafCap > 0 && a.tree.levels != [] && i < |a.tree.levels[0]|
    requires forall x :: 1 <= x <= i ==> a.tree.levels[0][x].key < key
    requires forall x :: i < x < |a.tree.levels[0]| ==> key <= a.tree.levels[0][x].key
    ensures var p := a.tree.levels[0][i].child;
            InsertTies(a.pages, key, leafCap, nodeCap, |a.tree.levels|) <==>
              && |TuplesOf(a.pages, p)| == leafCap
              && WouldTie(a.pages, p, TuplesOf(a.pages, p)[leafCap / 2].key, nodeCap, |a.tree.levels| - 1)
  {
    hide Above, LeavesOK, LeafFor, SidesFor, Searching, WouldTie;
    SearchRoot(a, leafCap, nodeCap, Some(key));
    LegalRoot(a, leafCap, nodeCap, 0);
    var x := SidesFound(a.pages, a.tree, nodeCap, |a.tree.levels| - 1, 0, a.pages[0].root, a.pages[0].rootCategory, Some(key));
    assert x == i;
  }

  /** The condition on pages is the condition on the leaf where the key belongs. */
  lemma CutsExactly(a: State, leafCap: nat, nodeCap: nat, key: int, i: nat)
    requires Legal(a, leafCap, nodeCap, 0) && leafCap > 0
    requires 0 in a.pages && a.pages[0].RootPtrPage? && a.tree.levels != [] && i < |a.tree.levels[0]|
    requires Found(a.tree, i, LeafFor(a.pages, a.pages[0].root, Some(key), |a.tree.levels| - 1), Some(key))
    ensures CutsAtSeparator(a.pages, key, leafCap, |a.tree.levels|) <==> EqualCut(a.pages, a.tree.levels[0], i, leafCap)
  {
    hide Above, LeavesOK, LeafFor, SidesFor, Guides, Searching;
    SearchRoot(a, leafCap, nodeCap, Some(key));
    RootSides(a, leafCap, nodeCap);
    var x := SidesFound(a.pages, a.tree, nodeCap, |a.tree.levels| - 1, 0, a.pages[0].root, a.pages[0].rootCategory, Some(key));
    LeafPlace(a, leafCap, nodeCap, 0, i);
    assert x == i;
  }

  lemma RootSides(a: State, leafCap: nat, nodeCap: nat)
    requires Legal(a, leafCap, nodeCap, 0)
    ensures a.tree.levels != []
    ensures var top := a.tree.levels[|a.tree.levels| - 1]; |top| == 1 && Low(top, 0) == None && Low(top, 1) == None
  {
  }

  // ------------------------------------------------- borrowing between leaves

  /** A leaf that is short borrows from its left or right sibling, the pair being leaves j
      and j + 1, and the new separator is one on a side of the pair. */
  ghost predicate EqualShare(s: Store, leaves: Level, j: nat, leafCap: nat, fromLeft: bool)
    requires j + 1 < |leaves|
  {
    var ts, us := TuplesOf(s, leaves[j].child), TuplesOf(s, leaves[j + 1].child);
    && |ts| < leafCap + 1 && |us| < leafCap + 1
    && (if fromLeft then |us| < leafCap / 2 < |ts| else |ts| < leafCap / 2 < |us|)
    && var key := if fromLeft then ts[|ts| - (|ts| - |us|) / 2].key else us[(|us| - |ts|) / 2].key;
       Low(leaves, j) == Some(key) || Low(leaves, j + 2) == Some(key)
  }

  /** The key on the left of page p, found on the way up. */
  function LeftSide(s: Store, p: nat, fuel: nat): Option<int>
    decreases fuel
  {
    var slots := SlotsOf(s, ParentOf(s, p));
    var c := FirstMatch(slots, p, p, 0);
    if fuel == 0 || ParentOf(s, p) == 0 || c == |slots| then None
    else if c > 0 then Some(slots[c].key)
    else LeftSide(s, ParentOf(s, p), fuel - 1)
  }

  function RightSide(s: Store, p: nat, fuel: nat): Option<int>
    decreases fuel
  {
    var slots := SlotsOf(s, ParentOf(s, p));
    var c := FirstMatch(slots, p, p, 0);
    if fuel == 0 || ParentOf(s, p) == 0 || c == |slots| then None
    else if c + 1 < |slots| then Some(slots[c + 1].key)
    else RightSide(s, ParentOf(s, p), fuel - 1)
  }

  /** Whether leaf p, once it has n tuples, borrows from a sibling, and the new separator is
      one on a side of the two.  fuel bounds the levels above. */
  predicate SharesAtSeparator(s: Store, p: nat, n: nat, leafCap: nat, fuel: nat) {
    var slots := SlotsOf(s, ParentOf(s, p));
    var c := FirstMatch(slots, p, p, 0);
    && n < leafCap / 2 && ParentOf(s, p) != 0 && c < |slots|
    && if c > 0 then
         var l := slots[c - 1].child;
         var ts := TuplesOf(s, l);
         && leafCap / 2 < |ts| <= leafCap
         && (var key := ts[|ts| - (|ts| - n) / 2].key;
             LeftSide(s, l, fuel) == Some(key) || RightSide(s, p, fuel) == Some(key))
       else
         && c + 1 < |slots|
         && var r := slots[c + 1].child;
            var us := TuplesOf(s, r);
            && leafCap / 2 < |us| <= leafCap
            && (var key := us[(|us| - n) / 2].key;
                LeftSide(s, p, fuel) == Some(key) || RightSide(s, r, fuel) == Some(key))
  }

  lemma RootSharesNothing(s: Store, p: nat, n: nat, leafCap: nat, fuel: nat)
    requires ParentOf(s, p) == 0
    ensures !SharesAtSeparator(s, p, n, leafCap, fuel)
  {
  }

  lemma EnoughSharesNothing(s: Store, p: nat, n: nat, leafCap: nat, fuel: nat)
    ensures n >= leafCap / 2 ==> !SharesAtSeparator(s, p, n, leafCap, fuel)
  {
  }

  lemma FirstIs(slots: seq<Slot>, c: nat)
    requires DistinctChildren(slots) && c < |slots|
    ensures FirstMatch(slots, slots[c].child, slots[c].child, 0) == c
  {
  }

  lemma SidesStep(s: Store, p: nat, fuel: nat)
    ensures ParentOf(s, p) == 0 ==> LeftSide(s, p, fuel) == None && RightSide(s, p, fuel) == None
    ensures var q, slots := ParentOf(s, p), SlotsOf(s, ParentOf(s, p));
            var c := FirstMatch(slots, p, p, 0);
            fuel > 0 && q != 0 && c < |slots| ==>
              && LeftSide(s, p, fuel) == (if c > 0 then Some(slots[c].key) else LeftSide(s, q, fuel - 1))
              && RightSide(s, p, fuel) == (if c + 1 < |slots| then Some(slots[c + 1].key) else RightSide(s, q, fuel - 1))
  {
  }

  lemma TopSides(s: Store, t: Tree, k: nat, cap: nat)
    requires Above(s, t, k, cap, 0) && k + 1 == |t.levels|
    ensures |t.levels[k]| == 1 && Low(t.levels[k], 0) == None && Low(t.levels[k], 1) == None
  {
  }

  /** The keys found on the way up are the separators beside the page. */
  lemma {:induction false} SidesUp(s: Store, t: Tree, k: nat, cap: nat, j: nat, fuel: nat)
    requires Above(s, t, k, cap, 0) && j < |t.levels[k]| && fuel + k + 1 >= |t.levels|
    ensures LeftSide(s, t.levels[k][j].child, fuel) == Low(t.levels[k], j)
    ensures RightSide(s, t.levels[k][j].child, fuel) == Low(t.levels[k], j + 1)
    decreases fuel
  {
    hide Above, Offset, DistinctChildren, SortedSlots, FirstMatch, Low, LeftSide, RightSide;
    ParentlessIsTop(s, t, k, cap, 0, j);
    SidesStep(s, t.levels[k][j].child, fuel);
    if k + 1 == |t.levels| {
      TopSides(s, t, k, cap);
    } else {
      var u, c := ParentHeight(s, t, k, cap, 0, j);
      NodeOrdered(s, t, k, cap, u);
      FirstIs(SlotsOf(s, t.levels[k + 1][u].child), c);
      ChildBounds(s, t, k, u, c, cap);
      AboveUp(s, t, k, cap);
      SidesUp(s, t, k + 1, cap, u, fuel - 1);
    }
  }

  lemma {:induction false} SidesFrame(s: Store, s': Store, p: nat, fuel: nat)
    requires forall x :: ParentOf(s', x) == ParentOf(s, x) && SlotsOf(s', x) == SlotsOf(s, x)
    ensures LeftSide(s', p, fuel) == LeftSide(s, p, fuel) && RightSide(s', p, fuel) == RightSide(s, p, fuel)
    decreases fuel
  {
    if fuel > 0 {
      SidesFrame(s, s', ParentOf(s, p), fuel - 1);
    }
  }

  lemma SharesPut(s: Store, p: nat, ts: seq<Tuple>, n: nat, leafCap: nat, fuel: nat)
    requires p in s && s[p].LeafPage? && DistinctChildren(SlotsOf(s, ParentOf(s, p)))
    ensures SharesAtSeparator(s[p := s[p].(tuples := ts)], p, n, leafCap, fuel) == SharesAtSeparator(s, p, n, leafCap, fuel)
  {
    hide SharesAtSeparator;
    SharesFrame(s, s[p := s[p].(tuples := ts)], p, n, leafCap, fuel);
  }

  /** Only the tuples of p changed. */
  lemma SharesFrame(s: Store, s': Store, p: nat, n: nat, leafCap: nat, fuel: nat)
    requires forall x :: ParentOf(s', x) == ParentOf(s, x) && SlotsOf(s', x) == SlotsOf(s, x)
    requires forall x :: x != p ==> TuplesOf(s', x) == TuplesOf(s, x)
    requires DistinctChildren(SlotsOf(s, ParentOf(s, p)))
    ensures SharesAtSeparator(s', p, n, leafCap, fuel) == SharesAtSeparator(s, p, n, leafCap, fuel)
  {
    hide LeftSide, RightSide;
    var slots := SlotsOf(s, ParentOf(s, p));
    var c := FirstMatch(slots, p, p, 0);
    SidesFrame(s, s', p, fuel);
    if 0 < c < |slots| {
      SidesFrame(s, s', slots[c - 1].child, fuel);
    }
    if c + 1 < |slots| {
      SidesFrame(s, s', slots[c + 1].child, fuel);
      assert slots[c + 1].child != slots[c].child;
    }
  }

  /** Where the two pages of a pair are, and what lies on their sides. */
  lemma PairSides(a: State, leafCap: nat, nodeCap: nat, w: nat, c: nat, j: nat, l: nat, r: nat, q: nat, ex: nat)
    requires Legal(a, leafCap, nodeCap, ex) && nodeCap >= 3 && Siblings(a.pages, a.tree, 0, w, c, j, l, r, q)
    ensures a.tree.levels != [] && j + 1 < |a.tree.levels[0]|
    ensures a.tree.levels[0][j].child == l && a.tree.levels[0][j + 1].child == r
    ensures ParentOf(a.pages, l) == q && ParentOf(a.pages, r) == q && q != 0
    ensures var slots := SlotsOf(a.pages, q);
            && 0 < c < |slots| && slots[c - 1].child == l && slots[c].child == r
            && FirstMatch(slots, l, l, 0) == c - 1 && FirstMatch(slots, r, r, 0) == c
    ensures |TuplesOf(a.pages, l)| <= leafCap && |TuplesOf(a.pages, r)| <= leafCap
    ensures var leaves, fuel := a.tree.levels[0], |a.tree.levels| - 1;
            && LeftSide(a.pages, l, fuel) == Low(leaves, j) && RightSide(a.pages, l, fuel) == Low(leaves, j + 1)
            && LeftSide(a.pages, r, fuel) == Low(leaves, j + 1) && RightSide(a.pages, r, fuel) == Low(leaves, j + 2)
  {
    hide Above, LeavesOK, Offset, LeftSide, RightSide, DistinctChildren, SortedSlots, Low, FirstMatch;
    LegalRoot(a, leafCap, nodeCap, ex);
    SiblingNode(a.pages, a.tree, 0, w, c, j, l, r, q);
    SiblingPages(a.pages, a.tree, 0, nodeCap, w, c, j, l, r, q);
    NodeOrdered(a.pages, a.tree, 0, nodeCap, w);
    FirstIs(SlotsOf(a.pages, q), c - 1);
    FirstIs(SlotsOf(a.pages, q), c);
    SidesUp(a.pages, a.tree, 0, nodeCap, j, |a.tree.levels| - 1);
    SidesUp(a.pages, a.tree, 0, nodeCap, j + 1, |a.tree.levels| - 1);
    LeafPlace(a, leafCap, nodeCap, ex, j);
    LeafPlace(a, leafCap, nodeCap, ex, j + 1);
  }

  /** The condition on pages is the condition on the pair that shares its tuples. */
  lemma SharesExactly(a: State, leafCap: nat, nodeCap: nat, w: nat, c: nat, j: nat, l: nat, r: nat, q: nat, fromLeft: bool, ex: nat)
    requires Legal(a, leafCap, nodeCap, ex) && nodeCap >= 3
    requires Siblings(a.pages, a.tree, 0, w, c, j, l, r, q) && (fromLeft || c == 1)
    ensures a.tree.levels != [] && j + 1 < |a.tree.levels[0]|
    ensures var p := if fromLeft then r else l;
            |TuplesOf(a.pages, p)| < leafCap / 2 ==>
              (SharesAtSeparator(a.pages, p, |TuplesOf(a.pages, p)|, leafCap, |a.tree.levels| - 1) <==>
               EqualShare(a.pages, a.tree.levels[0], j, leafCap, fromLeft))
  {
    hide Legal, Siblings, LeftSide, RightSide, Low, FirstMatch;
    PairSides(a, leafCap, nodeCap, w, c, j, l, r, q, ex);
  }
}
