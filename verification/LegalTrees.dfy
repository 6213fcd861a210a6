/** The legal-tree conditions as a walk down from the root, and the proof that the
    level-by-level conditions the operations keep imply them. */
module LegalTrees {
  import opened Pages
  import opened Levels
  import opened Trees
  import opened Merging
  import opened Leaves

  ghost predicate AtLeast(lo: Option<int>, key: int) {
    lo.Some? ==> lo.value <= key
  }

  ghost predicate AtMost(key: int, hi: Option<int>) {
    hi.Some? ==> key <= hi.value
  }

  ghost predicate FitsBetween(lo: Option<int>, key: int, hi: Option<int>) {
    AtLeast(lo, key) && AtMost(key, hi)
  }

  /** A leaf with sorted tuples between lo and hi, half full unless it is the root. */
  ghost predicate LegalLeaf(s: Store, p: nat, parent: nat, lo: Option<int>, hi: Option<int>, leafCap: nat) {
    && p in s && s[p].LeafPage? && SortedTuples(s[p].tuples)
    && |s[p].tuples| <= leafCap && (parent != 0 ==> leafCap / 2 <= |s[p].tuples|)
    && forall i :: 0 <= i < |s[p].tuples| ==> FitsBetween(lo, s[p].tuples[i].key, hi)
  }

  /** An internal page with sorted keys between lo and hi, and one kind of children. */
  ghost predicate LegalNode(s: Store, p: nat, parent: nat, category: PageType, lo: Option<int>, hi: Option<int>, nodeCap: nat) {
    && p in s && s[p].InternalPage? && s[p].childCategory == category
    && 1 <= |s[p].slots| - 1 <= nodeCap && (parent != 0 ==> (nodeCap + 1) / 2 - 1 <= |s[p].slots| - 1)
    && DistinctChildren(s[p].slots) && SortedSlots(s[p].slots)
    && forall c :: 1 <= c < |s[p].slots| ==> FitsBetween(lo, s[p].slots[c].key, hi)
  }

  /** Page p is the root of a legal subtree: its leaves are h levels down, its keys lie in
      lo..hi, and it names parent as its parent, 0 for the root of the file. */
  ghost predicate LegalTree(s: Store, p: nat, parent: nat, h: nat, lo: Option<int>, hi: Option<int>, leafCap: nat, nodeCap: nat)
    decreases h, 1
  {
    && p != 0 && ParentOf(s, p) == parent
    && if h == 0 then LegalLeaf(s, p, parent, lo, hi, leafCap)
       else
         && LegalNode(s, p, parent, if h == 1 then Leaf else Internal, lo, hi, nodeCap)
         && forall c :: 0 <= c < |SlotsOf(s, p)| ==> LegalChild(s, p, c, h, lo, hi, leafCap, nodeCap)
  }

  /** Child c of page p, which is h levels above the leaves, is the root of a legal subtree
      between the keys on its two sides. */
  ghost predicate LegalChild(s: Store, p: nat, c: nat, h: nat, lo: Option<int>, hi: Option<int>, leafCap: nat, nodeCap: nat)
    requires c < |SlotsOf(s, p)| && h > 0
    decreases h, 0
  {
    var slots := SlotsOf(s, p);
    LegalTree(s, slots[c].child, p, h - 1, if c == 0 then lo else Some(slots[c].key),
              if c + 1 == |slots| then hi else Some(slots[c + 1].key), leafCap, nodeCap)
  }

  /** The tuples below page p, which is h levels above the leaves, from left to right. */
  ghost function InOrder(s: Store, p: nat, h: nat): seq<Tuple>
    decreases h, 0
  {
    if h == 0 then TuplesOf(s, p) else InOrderAll(s, SlotsOf(s, p), h - 1)
  }

  ghost function InOrderAll(s: Store, nodes: seq<Slot>, h: nat): seq<Tuple>
    decreases h, 1, |nodes|
  {
    if nodes == [] then [] else InOrder(s, nodes[0].child, h) + InOrderAll(s, nodes[1..], h)
  }

  /** The leaf pages below page p, from left to right. */
  ghost function LeavesBelow(s: Store, p: nat, h: nat): seq<nat>
    decreases h, 0
  {
    if h == 0 then [p] else LeavesBelowAll(s, SlotsOf(s, p), h - 1)
  }

  ghost function LeavesBelowAll(s: Store, nodes: seq<Slot>, h: nat): seq<nat>
    decreases h, 1, |nodes|
  {
    if nodes == [] then [] else LeavesBelow(s, nodes[0].child, h) + LeavesBelowAll(s, nodes[1..], h)
  }

  ghost predicate LinkedAt(s: Store, leaves: seq<nat>, i: nat)
    requires i < |leaves|
  {
    && leaves[i] in s && s[leaves[i]].LeafPage?
    && s[leaves[i]].left == (if i == 0 then 0 else leaves[i - 1])
    && s[leaves[i]].right == (if i + 1 == |leaves| then 0 else leaves[i + 1])
  }

  /** Leaves that follow each other name each other; the two ends name null. */
  ghost predicate DoublyLinked(s: Store, leaves: seq<nat>) {
    forall i :: 0 <= i < |leaves| ==> LinkedAt(s, leaves, i)
  }

  // ------------------------------------------------------------------ orders

  lemma {:induction false} InOrderAppend(s: Store, a: seq<Slot>, b: seq<Slot>, h: nat)
    ensures InOrderAll(s, a + b, h) == InOrderAll(s, a, h) + InOrderAll(s, b, h)
    ensures LeavesBelowAll(s, a + b, h) == LeavesBelowAll(s, a, h) + LeavesBelowAll(s, b, h)
  {
    if a == [] {
      assert a + b == b;
    } else {
      assert (a + b)[0] == a[0] && (a + b)[1..] == a[1..] + b;
      InOrderAppend(s, a[1..], b, h);
    }
  }

  lemma {:induction false} RekeyOrder(s: Store, key: int, slots: seq<Slot>, h: nat)
    ensures InOrderAll(s, Rekey(key, slots), h) == InOrderAll(s, slots, h)
    ensures LeavesBelowAll(s, Rekey(key, slots), h) == LeavesBelowAll(s, slots, h)
  {
    if slots != [] {
      assert Rekey(key, slots)[1..] == slots[1..];
    }
  }

  /** A level and the level it expands to hold the same, in the same order. */
  lemma {:induction false} ExpandOrder(s: Store, up: Level, h: nat)
    ensures InOrderAll(s, Expand(s, up), h) == InOrderAll(s, up, h + 1)
    ensures LeavesBelowAll(s, Expand(s, up), h) == LeavesBelowAll(s, up, h + 1)
  {
    if up != [] {
      ExpandOrder(s, up[1..], h);
      InOrderAppend(s, Kids(s, up[0]), Expand(s, up[1..]), h);
      RekeyOrder(s, up[0].key, SlotsOf(s, up[0].child), h);
    }
  }

  lemma {:induction false} LevelOrder(s: Store, t: Tree, k: nat, cap: nat)
    requires Above(s, t, 0, cap, 0) && k < |t.levels|
    ensures InOrderAll(s, t.levels[k], k) == InOrderAll(s, t.levels[0], 0)
    ensures LeavesBelowAll(s, t.levels[k], k) == LeavesBelowAll(s, t.levels[0], 0)
  {
    hide Above, InOrderAll, LeavesBelowAll, Linked, Filled, Placed, Typed, Rooted, NoDup, SortedLevel, Expand;
    if k > 0 {
      LevelOrder(s, t, k - 1, cap);
      AboveAt(s, t, k - 1, cap);
      LevelBelow(s, t, k - 1, cap, 0);
      ExpandOrder(s, t.levels[k], k - 1);
    }
  }

  lemma SingleOrder(s: Store, x: Slot, h: nat)
    ensures InOrderAll(s, [x], h) == InOrder(s, x.child, h)
    ensures LeavesBelowAll(s, [x], h) == LeavesBelow(s, x.child, h)
  {
    assert InOrderAll(s, [x][1..], h) == [] && LeavesBelowAll(s, [x][1..], h) == [];
  }

  lemma {:induction false} LeafOrder(s: Store, leaves: Level)
    ensures InOrderAll(s, leaves, 0) == Contents(s, leaves)
    ensures |LeavesBelowAll(s, leaves, 0)| == |leaves|
    ensures forall i :: 0 <= i < |leaves| ==> LeavesBelowAll(s, leaves, 0)[i] == leaves[i].child
  {
    if leaves != [] {
      LeafOrder(s, leaves[1..]);
    }
  }

  // ------------------------------------------------------------------ the walk

  /** The key on the left of node j of a level, none for the first. */
  ghost function Low(level: Level, j: nat): Option<int>
    requires j <= |level|
  {
    if 0 < j < |level| then Some(level[j].key) else None
  }

  lemma LeafLegal(s: Store, t: Tree, j: nat, parent: nat, leafCap: nat, nodeCap: nat)
    requires Above(s, t, 0, nodeCap, 0) && LeavesOK(s, t.levels[0], leafCap, 0) && j < |t.levels[0]|
    requires parent == ParentOf(s, t.levels[0][j].child)
    ensures LegalTree(s, t.levels[0][j].child, parent, 0, Low(t.levels[0], j), Low(t.levels[0], j + 1), leafCap, nodeCap)
  {
    hide Above, Placed;
    LevelPlace(s, t, 0, nodeCap, j);
    if parent != 0 {
      TwoNodes(s, t, 0, nodeCap);
    }
    assert LeafOK(s, t.levels[0], j, leafCap, 0);
  }

  lemma LevelPlace(s: Store, t: Tree, k: nat, nodeCap: nat, j: nat)
    requires Above(s, t, k, nodeCap, 0) && j < |t.levels[k]|
    ensures t.levels[k][j].child in t.heightOf && t.heightOf[t.levels[k][j].child] == k && t.levels[k][j].child != 0
    ensures k < |t.levels| && (k + 1 == |t.levels| <==> ParentOf(s, t.levels[k][j].child) == 0)
    ensures |t.levels[k]| > 1 ==> k + 1 < |t.levels|
  {
    LevelHeight(t, k, j);
    ParentlessIsTop(s, t, k, nodeCap, 0, j);
  }

  /** What lies between a node's children lies between the separators around the node. */
  lemma KidBounds(s: Store, up: Level, down: Level, u: nat, c: nat)
    requires Expand(s, up) == down && u < |up| && c < |SlotsOf(s, up[u].child)|
    requires forall j :: 0 <= j < |up| ==> SlotsOf(s, up[j].child) != []
    ensures var slots, x := SlotsOf(s, up[u].child), Offset(s, up, u) + c;
            && x < |down| && down[x].child == slots[c].child
            && Low(down, x) == (if c == 0 then Low(up, u) else Some(slots[c].key))
            && Low(down, x + 1) == (if c + 1 == |slots| then Low(up, u + 1) else Some(slots[c + 1].key))
  {
    hide Expand;
    var slots, x := SlotsOf(s, up[u].child), Offset(s, up, u) + c;
    KidNeighbours(s, up, down, u, c);
    OffsetMonotone(s, up, 0, u);
    assert up[..0] == [];
    if c == 0 {
      ChildAt(s, up, u, 0);
      if u == 0 {
        NoOffset(s, up);
      }
    }
    if c + 1 == |slots| {
      OffsetNext(s, up, u);
      if u + 1 < |up| {
        ChildAt(s, up, u + 1, 0);
      } else {
        assert up[..u + 1] == up;
      }
    }
  }

  /** A level below another has at least two nodes. */
  lemma TwoNodes(s: Store, t: Tree, k: nat, cap: nat)
    requires Above(s, t, k, cap, 0) && k + 1 < |t.levels|
    ensures |t.levels[k]| > 1
  {
    hide Above, Linked, Placed, Typed, NoDup, SortedLevel;
    LevelBelow(s, t, k, cap, 0);
    TopNonEmpty(s, t, k, cap);
    NodeKeys(s, t, k + 1, cap, 0, 0);
    ExpandAt(s, t.levels[k + 1], 0);
  }

  lemma {:induction false} TopNonEmpty(s: Store, t: Tree, k: nat, cap: nat)
    requires Above(s, t, k, cap, 0) && k + 1 < |t.levels|
    ensures t.levels[k + 1] != []
    decreases |t.levels| - k
  {
    if k + 2 < |t.levels| {
      AboveUp(s, t, k, cap);
      TopNonEmpty(s, t, k + 1, cap);
      LevelBelow(s, t, k + 1, cap, 0);
      NodeKeys(s, t, k + 2, cap, 0, 0);
      ExpandAt(s, t.levels[k + 2], 0);
    }
  }

  /** A page of a legal tree, without its children. */
  lemma NodeAlone(s: Store, t: Tree, k: nat, j: nat, cap: nat)
    requires Above(s, t, k, cap, 0) && k + 1 < |t.levels| && j < |t.levels[k + 1]|
    ensures var p, level := t.levels[k + 1][j].child, t.levels[k + 1];
            && p != 0 && SlotsOf(s, p) != []
            && LegalNode(s, p, ParentOf(s, p), if k == 0 then Leaf else Internal, Low(level, j), Low(level, j + 1), cap)
  {
    hide Above, Linked, DistinctChildren, SortedSlots, SortedLevel, NoDup, Placed, Typed, Expand, Rooted, Low;
    AboveUp(s, t, k, cap);
    LevelPlace(s, t, k + 1, cap, j);
    LevelBelow(s, t, k, cap, 0);
    SlotsNonEmpty(s, t, k + 1, cap, 0);
    NodeKeys(s, t, k + 1, cap, 0, j);
    NodeOrdered(s, t, k, cap, j);
    KeysBetween(s, t.levels[k + 1], t.levels[k], j);
  }

  /** Child c of node j. */
  lemma ChildBounds(s: Store, t: Tree, k: nat, j: nat, c: nat, cap: nat)
    requires Above(s, t, k, cap, 0) && k + 1 < |t.levels| && j < |t.levels[k + 1]|
    requires c < |SlotsOf(s, t.levels[k + 1][j].child)|
    ensures var p, slots, x := t.levels[k + 1][j].child, SlotsOf(s, t.levels[k + 1][j].child), Offset(s, t.levels[k + 1], j) + c;
            && x < |t.levels[k]| && t.levels[k][x].child == slots[c].child && ParentOf(s, slots[c].child) == p
            && Low(t.levels[k], x) == (if c == 0 then Low(t.levels[k + 1], j) else Some(slots[c].key))
            && Low(t.levels[k], x + 1) == (if c + 1 == |slots| then Low(t.levels[k + 1], j + 1) else Some(slots[c + 1].key))
  {
    hide Above, Linked, Filled, SortedLevel, NoDup, Placed, Typed, Expand, Offset, Rooted, Low;
    LevelBelow(s, t, k, cap, 0);
    SlotsNonEmpty(s, t, k + 1, cap, 0);
    KidBounds(s, t.levels[k + 1], t.levels[k], j, c);
    ChildHeight(s, t, k, cap, 0, j, c);
  }

  /** Every node of a legal tree is the root of a legal subtree. */
  lemma {:induction false} NodeLegal(s: Store, t: Tree, k: nat, j: nat, leafCap: nat, nodeCap: nat)
    requires Above(s, t, 0, nodeCap, 0) && LeavesOK(s, t.levels[0], leafCap, 0)
    requires k < |t.levels| && j < |t.levels[k]|
    ensures var p := t.levels[k][j].child;
            LegalTree(s, p, ParentOf(s, p), k, Low(t.levels[k], j), Low(t.levels[k], j + 1), leafCap, nodeCap)
    decreases k
  {
    hide Above, LeavesOK, Low, Offset, LegalNode, LegalLeaf;
    if k == 0 {
      LeafLegal(s, t, j, ParentOf(s, t.levels[0][j].child), leafCap, nodeCap);
    } else {
      AboveAt(s, t, k - 1, nodeCap);
      var p := t.levels[k][j].child;
      var slots := SlotsOf(s, p);
      var lo, hi := Low(t.levels[k], j), Low(t.levels[k], j + 1);
      NodeAlone(s, t, k - 1, j, nodeCap);
      forall c | 0 <= c < |slots|
        ensures LegalChild(s, p, c, k, lo, hi, leafCap, nodeCap)
      {
        ChildBounds(s, t, k - 1, j, c, nodeCap);
        NodeLegal(s, t, k - 1, Offset(s, t.levels[k], j) + c, leafCap, nodeCap);
      }
    }
  }

  lemma KeysBetween(s: Store, up: Level, down: Level, u: nat)
    requires Expand(s, up) == down && SortedLevel(down) && u < |up|
    requires forall j :: 0 <= j < |up| ==> SlotsOf(s, up[j].child) != []
    ensures forall c :: 1 <= c < |SlotsOf(s, up[u].child)| ==>
              FitsBetween(Low(up, u), SlotsOf(s, up[u].child)[c].key, Low(up, u + 1))
  {
    forall c | 1 <= c < |SlotsOf(s, up[u].child)|
      ensures FitsBetween(Low(up, u), SlotsOf(s, up[u].child)[c].key, Low(up, u + 1))
    {
      hide Expand, SortedLevel, Offset;
      InnerKeyFits(s, up, down, u, c);
    }
  }

  lemma LeavesLinked(s: Store, leaves: Level, cap: nat)
    requires LeavesOK(s, leaves, cap, 0)
    ensures DoublyLinked(s, LeavesBelowAll(s, leaves, 0))
  {
    LeafOrder(s, leaves);
    var chain := LeavesBelowAll(s, leaves, 0);
    forall i | 0 <= i < |chain|
      ensures LinkedAt(s, chain, i)
    {
      assert LeafOK(s, leaves, i, cap, 0);
    }
  }

  /** The whole file: a legal tree under the root pointer, with every leaf at the same
      depth, that holds the contents in order; the leaves, in order, are linked; and the
      pages in use are those of the tree. */
  lemma LegalFile(a: State, leafCap: nat, nodeCap: nat)
    requires Legal(a, leafCap, nodeCap, 0)
    ensures a.tree.levels != [] && 0 in a.pages && a.pages[0].RootPtrPage?
    ensures var root, h := a.pages[0].root, |a.tree.levels| - 1;
            && LegalTree(a.pages, root, 0, h, None, None, leafCap, nodeCap)
            && InOrder(a.pages, root, h) == Contents(a.pages, a.tree.levels[0])
            && SortedTuples(InOrder(a.pages, root, h))
            && DoublyLinked(a.pages, LeavesBelow(a.pages, root, h))
            && a.pages[0].rootCategory == (if h == 0 then Leaf else Internal)
  {
    hide LeavesOK, LegalTree, DoublyLinked, SortedTuples, Placed, LevelOK, Typed;
    var h := |a.tree.levels| - 1;
    var top := a.tree.levels[h];
    var root := a.pages[0].root;
    assert top == [Slot(0, root)] && ParentOf(a.pages, root) == 0;
    NodeLegal(a.pages, a.tree, h, 0, leafCap, nodeCap);
    LevelOrder(a.pages, a.tree, h, nodeCap);
    LeafOrder(a.pages, a.tree.levels[0]);
    SingleOrder(a.pages, top[0], h);
    LeavesLinked(a.pages, a.tree.levels[0], leafCap);
    LegalSorted(a, leafCap, nodeCap);
  }
}
