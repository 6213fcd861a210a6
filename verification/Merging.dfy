/** What borrowing from a sibling and merging with one do to the shape of a B+ tree: the
    value-level counterpart of the methods of BTreeFile that deletion uses. */
module Merging {
  import opened Pages
  import opened Levels
  import opened Trees

  // ------------------------------------------------------------------ siblings

  /** Pages l and r are nodes u and u + 1 of level i, and children c - 1 and c of page q,
      node w of the level above. */
  ghost predicate Siblings(s: Store, t: Tree, i: nat, w: nat, c: nat, u: nat, l: nat, r: nat, q: nat) {
    && i + 1 < |t.levels| && w < |t.levels[i + 1]| && t.levels[i + 1][w].child == q
    && 0 < c < |SlotsOf(s, q)| && SlotsOf(s, q)[c - 1].child == l && SlotsOf(s, q)[c].child == r
    && u + 1 == Offset(s, t.levels[i + 1], w) + c && u + 1 < |t.levels[i]|
    && t.levels[i][u].child == l && t.levels[i][u + 1] == SlotsOf(s, q)[c]
    && (c > 1 ==> t.levels[i][u] == SlotsOf(s, q)[c - 1])
    && (c + 1 < |SlotsOf(s, q)| ==> u + 2 < |t.levels[i]| && t.levels[i][u + 2] == SlotsOf(s, q)[c + 1])
  }

  lemma SiblingsAt(s: Store, t: Tree, i: nat, cap: nat, w: nat, c: nat, u: nat, l: nat, r: nat, q: nat)
    requires Above(s, t, i, cap, 0) && i + 1 < |t.levels| && w < |t.levels[i + 1]|
    requires q == t.levels[i + 1][w].child && 0 < c < |SlotsOf(s, q)|
    requires l == SlotsOf(s, q)[c - 1].child && r == SlotsOf(s, q)[c].child
    requires u + 1 == Offset(s, t.levels[i + 1], w) + c
    ensures Siblings(s, t, i, w, c, u, l, r, q)
  {
    hide Above, Linked, SortedLevel, NoDup, Filled, Offset, Expand, Placed, Typed, Rooted;
    var up, down := t.levels[i + 1], t.levels[i];
    LevelBelow(s, t, i, cap, 0);
    KidNeighbours(s, up, down, w, c - 1);
    KidNeighbours(s, up, down, w, c);
  }

  lemma AboveLevels(s: Store, t: Tree, k: nat, cap: nat)
    requires Above(s, t, k, cap, 0)
    ensures k < |t.levels|
  {
  }

  /** Where the siblings of page p, node j of level i, are: under the same parent. */
  lemma FindSiblings(s: Store, t: Tree, i: nat, cap: nat, j: nat, p: nat) returns (w: nat, c: nat)
    requires Above(s, t, i, cap, 0) && j < |t.levels[i]| && p == t.levels[i][j].child
    requires ParentOf(s, p) != 0
    ensures var q := ParentOf(s, p);
            var slots := SlotsOf(s, q);
            && q in t.heightOf && t.heightOf[q] == i + 1 && q in s && s[q].InternalPage?
            && c < |slots| && slots[c].child == p && DistinctChildren(slots)
            && 2 <= |slots| <= cap + 1
            && (c > 0 ==> j > 0 && Siblings(s, t, i, w, c, j - 1, slots[c - 1].child, p, q))
            && (c + 1 < |slots| ==> Siblings(s, t, i, w, c + 1, j, p, slots[c + 1].child, q))
  {
    hide Above, Siblings, DistinctChildren, SortedSlots;
    ParentlessIsTop(s, t, i, cap, 0, j);
    w, c := ParentHeight(s, t, i, cap, 0, j);
    var q := ParentOf(s, p);
    var slots := SlotsOf(s, q);
    NodeFacts(s, t, i, cap, q);
    NodeOrdered(s, t, i, cap, w);
    if c > 0 {
      SiblingsAt(s, t, i, cap, w, c, j - 1, slots[c - 1].child, p, q);
    }
    if c + 1 < |slots| {
      SiblingsAt(s, t, i, cap, w, c + 1, j, p, slots[c + 1].child, q);
    }
  }

  /** The pages of a pair of siblings and of their parent. */
  lemma SiblingPages(s: Store, t: Tree, i: nat, cap: nat, w: nat, c: nat, u: nat, l: nat, r: nat, q: nat)
    requires Above(s, t, i, cap, 0) && Siblings(s, t, i, w, c, u, l, r, q)
    ensures l in t.heightOf && t.heightOf[l] == i && r in t.heightOf && t.heightOf[r] == i
    ensures q in t.heightOf && t.heightOf[q] == i + 1
    ensures l in s && r in s && q in s && IsTreePage(s[l]) && IsTreePage(s[r]) && s[q].InternalPage?
    ensures ParentOf(s, l) == q && ParentOf(s, r) == q
    ensures l != r && l != q && r != q && l != 0 && r != 0 && q != 0
    ensures (i == 0 <==> s[l].LeafPage?) && (i == 0 <==> s[r].LeafPage?)
  {
    ChildHeight(s, t, i, cap, 0, w, c - 1);
    ChildHeight(s, t, i, cap, 0, w, c);
    assert NoDup(t.levels[i]) && Typed(s, t);
  }

  // ------------------------------------------------------------------ frames

  /** Only page q of level k changed, and it kept its kind and parent. */
  lemma NodeChanged(s: Store, s': Store, t: Tree, k: nat, q: nat)
    requires Typed(s, t) && q in t.heightOf && t.heightOf[q] == k
    requires 0 in s && s[0].RootPtrPage? && s'.Keys == s.Keys
    requires forall p :: p in s && p != q ==> s'[p] == s[p]
    requires ParentOf(s', q) == ParentOf(s, q)
    requires s'[q].LeafPage? == s[q].LeafPage? && s'[q].InternalPage? == s[q].InternalPage?
    ensures AboveSame(s, s', t, k)
  {
  }

  /** What is legal above level k, page ex aside, is legal above level k + 1. */
  lemma AboveUpEx(s: Store, t: Tree, k: nat, cap: nat, ex: nat)
    requires Above(s, t, k, cap, ex) && k + 1 < |t.levels|
    requires ex in t.heightOf ==> t.heightOf[ex] == k + 1
    ensures Above(s, t, k + 1, cap, 0)
  {
    var up, down := t.levels[k + 1], t.levels[k];
    assert LevelOK(s, t, k + 1, cap, ex);
    SlotsNonEmpty(s, t, k + 1, cap, ex);
    SortedUp(s, up, down);
    forall i | k + 1 < i < |t.levels|
      ensures LevelOK(s, t, i, cap, 0)
    {
      assert LevelOK(s, t, i, cap, ex);
      FilledWithout(s, t, i, cap, ex);
    }
  }

  /** A page that is not on a level makes no exception there. */
  lemma FilledWithout(s: Store, t: Tree, i: nat, cap: nat, ex: nat)
    requires Placed(t) && i < |t.levels| && Filled(s, t, i, cap, ex)
    requires ex in t.heightOf ==> t.heightOf[ex] != i
    ensures Filled(s, t, i, cap, 0)
  {
    var level := t.levels[i];
    forall j | 0 <= j < |level|
      ensures KeyCount(SlotsOf(s, level[j].child), cap, i == |t.levels| - 1, level[j].child == 0)
    {
      LevelHeight(t, i, j);
      assert KeyCount(SlotsOf(s, level[j].child), cap, i == |t.levels| - 1, level[j].child == ex);
    }
  }

  /** A page that has enough keys makes no exception. */
  lemma AboveEnough(s: Store, t: Tree, k: nat, cap: nat, q: nat)
    requires Above(s, t, k, cap, q) && q in t.heightOf && t.heightOf[q] == k + 1
    requires KeyCount(SlotsOf(s, q), cap, k + 2 == |t.levels|, false)
    ensures Above(s, t, k, cap, 0)
  {
    forall i | k < i < |t.levels|
      ensures LevelOK(s, t, i, cap, 0)
    {
      assert LevelOK(s, t, i, cap, q);
      if i != k + 1 {
        FilledWithout(s, t, i, cap, q);
      } else {
        FilledEnough(s, t, i, cap, q);
      }
    }
  }

  lemma FilledEnough(s: Store, t: Tree, i: nat, cap: nat, q: nat)
    requires i < |t.levels| && Filled(s, t, i, cap, q)
    requires KeyCount(SlotsOf(s, q), cap, i == |t.levels| - 1, false)
    ensures Filled(s, t, i, cap, 0)
  {
    var level := t.levels[i];
    forall j | 0 <= j < |level|
      ensures KeyCount(SlotsOf(s, level[j].child), cap, i == |t.levels| - 1, level[j].child == 0)
    {
      assert KeyCount(SlotsOf(s, level[j].child), cap, i == |t.levels| - 1, level[j].child == q);
    }
  }

  // ------------------------------------------------- taking a child off its parent

  /** Entry c is taken off page q, which keeps an entry. */
  ghost predicate Removing(s: Store, s': Store, t: Tree, k: nat, cap: nat, w: nat, c: nat, u: nat, l: nat, r: nat, q: nat) {
    && Above(s, t, k, cap, 0) && Siblings(s, t, k, w, c, u, l, r, q)
    && |SlotsOf(s, q)| >= 3 && q in s && s[q].InternalPage?
    && s' == s[q := s[q].(slots := RemoveAt(SlotsOf(s, q), c))]
  }

  lemma RemovedFilled(s: Store, s': Store, t: Tree, t': Tree, i: nat, cap: nat, w: nat, c: nat)
    requires Placed(t) && i < |t.levels| && |t'.levels| == |t.levels| && t'.levels[i] == t.levels[i]
    requires w < |t.levels[i]| && Filled(s, t, i, cap, 0)
    requires var q := t.levels[i][w].child;
             && q in s && s[q].InternalPage? && c < |SlotsOf(s, q)| && |SlotsOf(s, q)| >= 3
             && s' == s[q := s[q].(slots := RemoveAt(SlotsOf(s, q), c))]
    requires forall j :: 0 <= j < |t.levels[i]| ==> t.levels[i][j].child != 0
    ensures Filled(s', t', i, cap, t.levels[i][w].child)
  {
    var level := t.levels[i];
    forall j | 0 <= j < |level|
      ensures KeyCount(SlotsOf(s', level[j].child), cap, i == |t.levels| - 1, level[j].child == level[w].child)
    {
      assert KeyCount(SlotsOf(s, level[j].child), cap, i == |t.levels| - 1, level[j].child == 0);
    }
  }

  lemma RemovedLevel(s: Store, s': Store, t: Tree, t': Tree, k: nat, cap: nat, w: nat, c: nat, u: nat, l: nat, r: nat, q: nat)
    requires Removing(s, s', t, k, cap, w, c, u, l, r, q) && t' == RemoveNode(t, k, u + 1)
    ensures k + 1 < |t'.levels| && LevelOK(s', t', k + 1, cap, q)
  {
    hide Above, SortedLevel, NoDup, Linked, Filled, OthersSame, Placed, Offset, Typed, Rooted, Expand, RemoveAt, Holds;
    var up, down := t.levels[k + 1], t.levels[k];
    SiblingPages(s, t, k, cap, w, c, u, l, r, q);
    LevelBelow(s, t, k, cap, 0);
    OthersSameExcept(s, s', t, k, w, 0, up, down);
    forall j | 0 <= j < |up|
      ensures up[j].child != 0
    {
      LevelHeight(t, k + 1, j);
    }
    RemovedFilled(s, s', t, t', k + 1, cap, w, c);
    LinkRemove(s, s', up, down, w, c);
  }

  lemma RemovedLevels(s: Store, s': Store, t: Tree, t': Tree, k: nat, cap: nat, w: nat, c: nat, u: nat, l: nat, r: nat, q: nat)
    requires Removing(s, s', t, k, cap, w, c, u, l, r, q) && t' == RemoveNode(t, k, u + 1)
    ensures forall i :: k < i < |t'.levels| ==> LevelOK(s', t', i, cap, q)
    ensures AboveSame(s, s', t, k + 1)
  {
    hide Siblings, LevelOK;
    SiblingPages(s, t, k, cap, w, c, u, l, r, q);
    NodeChanged(s, s', t, k + 1, q);
    assert Typed(s', t);
    forall i | k < i < |t'.levels|
      ensures LevelOK(s', t', i, cap, q)
    {
      if i == k + 1 {
        RemovedLevel(s, s', t, t', k, cap, w, c, u, l, r, q);
      } else {
        LevelOKFrame(s, s', t, k + 1, i, cap, 0);
        LevelOKOther(s', t, t', i, cap, q);
      }
    }
  }

  /** A page of another level may be excepted. */
  lemma FilledExcept(s: Store, t: Tree, i: nat, cap: nat, ex: nat)
    requires Placed(t) && Typed(s, t) && i < |t.levels| && Filled(s, t, i, cap, 0)
    ensures Filled(s, t, i, cap, ex)
  {
    var level := t.levels[i];
    forall j | 0 <= j < |level|
      ensures KeyCount(SlotsOf(s, level[j].child), cap, i == |t.levels| - 1, level[j].child == ex)
    {
      LevelHeight(t, i, j);
      assert KeyCount(SlotsOf(s, level[j].child), cap, i == |t.levels| - 1, level[j].child == 0);
    }
  }

  /** A tree that agrees on a level and the one below it. */
  lemma LevelOKOther(s: Store, t: Tree, t': Tree, i: nat, cap: nat, ex: nat)
    requires Placed(t) && Typed(s, t) && 0 < i < |t.levels| && LevelOK(s, t, i, cap, 0)
    requires |t'.levels| == |t.levels| && t'.levels[i] == t.levels[i] && t'.levels[i - 1] == t.levels[i - 1]
    ensures LevelOK(s, t', i, cap, ex)
  {
    FilledExcept(s, t, i, cap, ex);
  }

  lemma SortedRemoved(level: Level, j: nat)
    requires SortedLevel(level) && j < |level|
    ensures SortedLevel(RemoveAt(level, j))
  {
  }

  lemma RemovedAbove(s: Store, s': Store, t: Tree, k: nat, cap: nat, w: nat, c: nat, u: nat, l: nat, r: nat, q: nat)
    requires Removing(s, s', t, k, cap, w, c, u, l, r, q)
    ensures Above(s', RemoveNode(t, k, u + 1), k, cap, q)
  {
    hide LevelOK, Placed, Offset, NoDup, Expand, Holds, SortedLevel;
    var t' := RemoveNode(t, k, u + 1);
    SortedRemoved(t.levels[k], u + 1);
    SiblingPages(s, t, k, cap, w, c, u, l, r, q);
    RemovedLevels(s, s', t, t', k, cap, w, c, u, l, r, q);
    PlacedRemove(t, k, u + 1);
    RootHeight(s, t);
  }

  /** Page r, node x of level k, was taken out of a legal tree and is still in use. */
  ghost predicate Detached(a: State, b: State, k: nat, cap: nat, x: nat, r: nat)
    requires k < |a.tree.levels| && x < |a.tree.levels[k]|
  {
    && Above(b.pages, b.tree, k, cap, 0) && Progress(a, b, k, r)
    && b.tree.levels[k] == RemoveAt(a.tree.levels[k], x)
    && Loose(b, r)
  }

  /** Pages l and r, nodes u and u + 1 of level k of a legal tree, are children c - 1 and c
      of page q, node w of the level above, and r is about to leave. */
  ghost predicate Detaching(a: State, k: nat, cap: nat, w: nat, c: nat, u: nat, l: nat, r: nat, q: nat) {
    && Above(a.pages, a.tree, k, cap, 0) && cap >= 5
    && a.tree.heightOf.Keys <= a.inUse && 0 !in a.inUse
    && (forall p :: p in a.inUse ==> p in a.pages)
    && Siblings(a.pages, a.tree, k, w, c, u, l, r, q)
  }

  lemma SlotRemoved(slots: seq<Slot>, c: nat)
    requires c < |slots|
    ensures RemoveAt(slots, c) == slots[..c] + slots[c + 1..] && |RemoveAt(slots, c)| == |slots| - 1
  {
  }

  lemma DetachingFacts(a: State, k: nat, cap: nat, w: nat, c: nat, u: nat, l: nat, r: nat, q: nat)
    requires Detaching(a, k, cap, w, c, u, l, r, q)
    ensures k + 1 < |a.tree.levels| && u + 1 < |a.tree.levels[k]| && cap >= 5
    ensures {l, r, q} <= a.inUse && {l, r, q} <= a.pages.Keys && l != q && r != q && l != r
    ensures a.pages[q].InternalPage? && 0 < c < |a.pages[q].slots| <= cap + 1
    ensures a.tree.heightOf.Keys <= a.inUse && 0 !in a.inUse
    ensures IsTreePage(a.pages[l]) && (a.pages[l].LeafPage? <==> k == 0)
    ensures |a.pages[q].slots| == 2 ==> a.pages[q].parent == 0 && c == 1
  {
    hide Above, Offset;
    SiblingPages(a.pages, a.tree, k, cap, w, c, u, l, r, q);
    NodeFacts(a.pages, a.tree, k, cap, q);
    if |a.pages[q].slots| == 2 {
      SingleIsRoot(a.pages, a.tree, k, cap, w);
    }
  }

  /** An internal page with one entry is the root. */
  lemma SingleIsRoot(s: Store, t: Tree, k: nat, cap: nat, w: nat)
    requires Above(s, t, k, cap, 0) && k + 1 < |t.levels| && w < |t.levels[k + 1]| && cap >= 5
    requires |SlotsOf(s, t.levels[k + 1][w].child)| == 2
    ensures k + 2 == |t.levels| && w == 0 && t.levels[k + 1] == [Slot(0, s[0].root)]
    ensures ParentOf(s, t.levels[k + 1][w].child) == 0
  {
    LevelBelow(s, t, k, cap, 0);
    NodeKeys(s, t, k + 1, cap, 0, w);
    LevelHeight(t, k + 1, w);
    assert k + 2 == |t.levels|;
  }

  lemma NodeKeys(s: Store, t: Tree, i: nat, cap: nat, ex: nat, j: nat)
    requires i < |t.levels| && j < |t.levels[i]| && Filled(s, t, i, cap, ex)
    ensures KeyCount(SlotsOf(s, t.levels[i][j].child), cap, i == |t.levels| - 1, t.levels[i][j].child == ex)
    ensures t.levels[i][j].child in s && s[t.levels[i][j].child].InternalPage?
    ensures s[t.levels[i][j].child].childCategory == (if i == 1 then Leaf else Internal)
  {
  }

  /** The parent keeps an entry, though it may now have one too few. */
  lemma DetachedNow(a: State, b: State, k: nat, cap: nat, w: nat, c: nat, u: nat, l: nat, r: nat, q: nat)
    requires Detaching(a, k, cap, w, c, u, l, r, q) && |SlotsOf(a.pages, q)| >= 3
    requires q in a.pages && a.pages[q].InternalPage? && c < |SlotsOf(a.pages, q)|
    requires k < |a.tree.levels| && u + 1 < |a.tree.levels[k]|
    requires b == State(a.pages[q := a.pages[q].(slots := RemoveAt(SlotsOf(a.pages, q), c))], a.inUse, RemoveNode(a.tree, k, u + 1))
    ensures Above(b.pages, b.tree, k, cap, q) && Progress(a, b, k, r) && Loose(b, r)
    ensures b.tree.levels[k] == RemoveAt(a.tree.levels[k], u + 1)
  {
    hide Above, Siblings, Progress;
    SiblingPages(a.pages, a.tree, k, cap, w, c, u, l, r, q);
    RemovedAbove(a.pages, b.pages, a.tree, k, cap, w, c, u, l, r, q);
    SiblingNode(a.pages, a.tree, k, w, c, u, l, r, q);
    AllTreePagesAbove(a.pages, a.tree, k, cap, 0);
    ProgressRemove(a, b, k, q, u + 1, r);
  }

  lemma SiblingNode(s: Store, t: Tree, k: nat, w: nat, c: nat, u: nat, l: nat, r: nat, q: nat)
    requires Siblings(s, t, k, w, c, u, l, r, q)
    ensures u + 1 < |t.levels[k]| && t.levels[k][u].child == l && t.levels[k][u + 1].child == r
  {
  }

  lemma AllTreePagesAbove(s: Store, t: Tree, k: nat, cap: nat, ex: nat)
    requires Above(s, t, k, cap, ex)
    ensures forall p :: p in t.heightOf ==> p in s && IsTreePage(s[p])
  {
  }

  lemma ProgressRemove(a: State, b: State, k: nat, q: nat, x: nat, r: nat)
    requires a.tree.heightOf.Keys <= a.inUse && b.inUse == a.inUse
    requires k < |a.tree.levels| && x < |a.tree.levels[k]| && r == a.tree.levels[k][x].child
    requires b.tree == RemoveNode(a.tree, k, x)
    requires q in a.tree.heightOf && a.tree.heightOf[q] == k + 1
    requires forall p :: p in a.inUse ==> p in a.pages
    requires forall p :: p in a.inUse && p != q ==> p in b.pages && b.pages[p] == a.pages[p]
    requires forall p :: p in a.tree.heightOf ==> IsTreePage(a.pages[p])
    requires r in a.tree.heightOf && a.tree.heightOf[r] == k
    ensures Progress(a, b, k, r) && Loose(b, r)
  {
    assert b.tree.levels[..k] == a.tree.levels[..k];
  }

  // ------------------------------------------------- the root loses its last entry

  /** The root q lost its only entry: its child l is the root now, q and r are not in the
      tree. */
  ghost predicate RootDropped(s: Store, s': Store, t: Tree, k: nat, q: nat, l: nat, r: nat) {
    && 0 in s' && s'[0].RootPtrPage? && s'[0].root == l && s'[0].rootCategory == (if k == 0 then Leaf else Internal)
    && l in s && l in s' && s'[l] == WithParent(s[l], 0)
    && forall p :: p in t.heightOf && p != l && p != q ==> p in s && p in s' && s'[p] == s[p]
  }

  function PopRoot(t: Tree, k: nat, l: nat, r: nat, q: nat): Tree
    requires k < |t.levels|
  {
    Tree(t.levels[..k] + [[Slot(0, l)]], t.heightOf - {q, r})
  }

  lemma PlacedPop(t: Tree, k: nat, l: nat, key: int, r: nat, q: nat)
    requires Placed(t) && k + 2 == |t.levels| && t.levels[k + 1] == [Slot(0, q)]
    requires t.levels[k] == [Slot(0, l), Slot(key, r)]
    ensures Placed(PopRoot(t, k, l, r, q)) && l in t.heightOf && t.heightOf[l] == k && l != r && l != q
  {
    var t' := PopRoot(t, k, l, r, q);
    LevelHeight(t, k, 0);
    LevelHeight(t, k, 1);
    LevelHeight(t, k + 1, 0);
    assert NoDup(t.levels[k]);
    assert l != r by { assert t.levels[k][0].child != t.levels[k][1].child; }
    forall p | p in t'.heightOf
      ensures t'.heightOf[p] < |t'.levels| && Holds(t'.levels[t'.heightOf[p]], p)
    {
      assert Holds(t.levels[t.heightOf[p]], p);
      if t.heightOf[p] == k {
        assert t'.levels[k][0].child == p;
      }
    }
    forall i, x | 0 <= i < |t'.levels| && 0 <= x < |t'.levels[i]|
      ensures t'.levels[i][x].child in t'.heightOf && t'.heightOf[t'.levels[i][x].child] == i
    {
      if i < k {
        LevelHeight(t, i, x);
      }
    }
    forall i | 0 <= i < |t'.levels|
      ensures NoDup(t'.levels[i])
    {
      assert i < k ==> t'.levels[i] == t.levels[i];
    }
  }

  /** The two levels under a root with one entry. */
  lemma RootPair(a: State, k: nat, cap: nat, w: nat, c: nat, u: nat, l: nat, r: nat, q: nat) returns (key: int)
    requires Detaching(a, k, cap, w, c, u, l, r, q) && |SlotsOf(a.pages, q)| == 2
    ensures k + 2 == |a.tree.levels| && a.tree.levels[k + 1] == [Slot(0, q)] && u == 0
    ensures a.tree.levels[k] == [Slot(0, l), Slot(key, r)]
  {
    var up := a.tree.levels[k + 1];
    SingleIsRoot(a.pages, a.tree, k, cap, w);
    LevelBelow(a.pages, a.tree, k, cap, 0);
    ExpandSingle(a.pages, up[0]);
    assert up == [up[0]];
    key := SlotsOf(a.pages, q)[1].key;
    assert a.tree.levels[k] == [Slot(0, l), Slot(key, r)];
  }

  lemma RootDroppedAbove(s: Store, s': Store, t: Tree, k: nat, cap: nat, l: nat, key: int, r: nat, q: nat)
    requires Placed(t) && Typed(s, t) && RootDropped(s, s', t, k, q, l, r)
    requires k + 2 == |t.levels| && t.levels[k + 1] == [Slot(0, q)] && t.levels[k] == [Slot(0, l), Slot(key, r)]
    ensures Above(s', PopRoot(t, k, l, r, q), k, cap, 0)
  {
    hide Placed;
    PlacedPop(t, k, l, key, r, q);
  }

  lemma CollapseDone(a: State, d: State, k: nat, cap: nat, w: nat, c: nat, u: nat, l: nat, r: nat, q: nat)
    requires Detaching(a, k, cap, w, c, u, l, r, q) && |SlotsOf(a.pages, q)| == 2
    requires k < |a.tree.levels| && u + 1 < |a.tree.levels[k]|
    requires RootDropped(a.pages, d.pages, a.tree, k, q, l, r)
    requires d.inUse == a.inUse - {q} && d.tree == PopRoot(a.tree, k, l, r, q)
    requires forall p :: p in d.inUse && p != l ==> p in d.pages && d.pages[p] == a.pages[p]
    ensures Detached(a, d, k, cap, u + 1, r)
  {
    hide Siblings, RootDropped, Placed, Progress, LevelOK;
    var key := RootPair(a, k, cap, w, c, u, l, r, q);
    SiblingPages(a.pages, a.tree, k, cap, w, c, u, l, r, q);
    RootDroppedAbove(a.pages, d.pages, a.tree, k, cap, l, key, r, q);
    DroppedPages(a.pages, d.pages, a.tree, k, q, l, r);
    AllTreePagesAbove(a.pages, a.tree, k, cap, 0);
    hide Above;
    ProgressDrop(a, d, k, l, r, q);
  }

  lemma DroppedPages(s: Store, s': Store, t: Tree, k: nat, q: nat, l: nat, r: nat)
    requires RootDropped(s, s', t, k, q, l, r)
    ensures l in s && l in s' && s'[l] == WithParent(s[l], 0)
  {
  }

  lemma ProgressDrop(a: State, d: State, k: nat, l: nat, r: nat, q: nat)
    requires a.tree.heightOf.Keys <= a.inUse && k < |a.tree.levels|
    requires d.inUse == a.inUse - {q} && d.tree == PopRoot(a.tree, k, l, r, q)
    requires l in a.tree.heightOf && a.tree.heightOf[l] == k && r in a.tree.heightOf && a.tree.heightOf[r] == k
    requires q in a.tree.heightOf && a.tree.heightOf[q] == k + 1 && l != r
    requires l in a.pages && l in d.pages && d.pages[l] == WithParent(a.pages[l], 0)
    requires forall p :: p in a.inUse ==> p in a.pages
    requires forall p :: p in d.inUse && p != l ==> p in d.pages && d.pages[p] == a.pages[p]
    requires forall p :: p in a.tree.heightOf ==> IsTreePage(a.pages[p])
    ensures Progress(a, d, k, r) && Loose(d, r)
  {
    assert d.tree.levels[..k] == a.tree.levels[..k];
  }

  // ------------------------------------------------- a new separator between siblings

  function RekeyNode(t: Tree, k: nat, x: nat, key: int): Tree
    requires k < |t.levels| && x < |t.levels[k]|
  {
    Tree(t.levels[k := t.levels[k][x := Slot(key, t.levels[k][x].child)]], t.heightOf)
  }

  /** The key of entry c of page q is changed to key. */
  ghost predicate Rekeying(s: Store, s': Store, t: Tree, k: nat, cap: nat, w: nat, c: nat, u: nat, l: nat, r: nat, q: nat, key: int) {
    && Above(s, t, k, cap, 0) && Siblings(s, t, k, w, c, u, l, r, q)
    && q in s && s[q].InternalPage?
    && s' == s[q := s[q].(slots := SlotsOf(s, q)[c := Slot(key, r)])]
    && SortedLevel(t.levels[k][u + 1 := Slot(key, r)])
  }

  lemma RekeyedFilled(s: Store, s': Store, t: Tree, t': Tree, i: nat, cap: nat, w: nat)
    requires i < |t.levels| && |t'.levels| == |t.levels| && t'.levels[i] == t.levels[i]
    requires w < |t.levels[i]| && Filled(s, t, i, cap, 0)
    requires var q := t.levels[i][w].child;
             && s'.Keys == s.Keys && (forall p :: p in s && p != q ==> s'[p] == s[p])
             && q in s && s[q].InternalPage? && s'[q] == s[q].(slots := SlotsOf(s', q))
             && |SlotsOf(s', q)| == |SlotsOf(s, q)|
    ensures Filled(s', t', i, cap, 0)
  {
    var level := t.levels[i];
    forall j | 0 <= j < |level|
      ensures KeyCount(SlotsOf(s', level[j].child), cap, i == |t.levels| - 1, level[j].child == 0)
    {
      NodeKeys(s, t, i, cap, 0, j);
    }
  }

  lemma RekeyedLevel(s: Store, s': Store, t: Tree, t': Tree, k: nat, cap: nat, w: nat, c: nat, u: nat, l: nat, r: nat, q: nat, key: int)
    requires Rekeying(s, s', t, k, cap, w, c, u, l, r, q, key) && t' == RekeyNode(t, k, u + 1, key)
    ensures k + 1 < |t'.levels| && LevelOK(s', t', k + 1, cap, 0)
  {
    hide Above, SortedLevel, NoDup, Linked, Filled, OthersSame, Placed, Offset, Typed, Rooted;
    SiblingPages(s, t, k, cap, w, c, u, l, r, q);
    LevelBelow(s, t, k, cap, 0);
    OthersSameExcept(s, s', t, k, w, 0, t.levels[k + 1], t.levels[k]);
    RekeyedFilled(s, s', t, t', k + 1, cap, w);
    LinkRekey(s, s', t.levels[k + 1], t.levels[k], w, c, key);
  }

  lemma RekeyedLevels(s: Store, s': Store, t: Tree, t': Tree, k: nat, cap: nat, w: nat, c: nat, u: nat, l: nat, r: nat, q: nat, key: int)
    requires Rekeying(s, s', t, k, cap, w, c, u, l, r, q, key) && t' == RekeyNode(t, k, u + 1, key)
    ensures forall i :: k < i < |t'.levels| ==> LevelOK(s', t', i, cap, 0)
    ensures AboveSame(s, s', t, k + 1)
  {
    hide Siblings, LevelOK;
    SiblingPages(s, t, k, cap, w, c, u, l, r, q);
    NodeChanged(s, s', t, k + 1, q);
    assert Typed(s', t);
    forall i | k < i < |t'.levels|
      ensures LevelOK(s', t', i, cap, 0)
    {
      if i == k + 1 {
        RekeyedLevel(s, s', t, t', k, cap, w, c, u, l, r, q, key);
      } else {
        LevelOKFrame(s, s', t, k + 1, i, cap, 0);
        LevelOKOther(s', t, t', i, cap, 0);
      }
    }
  }

  lemma PlacedRekey(t: Tree, k: nat, x: nat, key: int)
    requires Placed(t) && k < |t.levels| && x < |t.levels[k]|
    ensures Placed(RekeyNode(t, k, x, key))
  {
    var t' := RekeyNode(t, k, x, key);
    var level, level' := t.levels[k], t'.levels[k];
    assert NoDup(level);
    assert forall y :: 0 <= y < |level| ==> level'[y].child == level[y].child;
    forall p | p in t'.heightOf
      ensures t'.heightOf[p] < |t'.levels| && Holds(t'.levels[t'.heightOf[p]], p)
    {
      assert Holds(t.levels[t.heightOf[p]], p);
      if t.heightOf[p] == k {
        var y :| 0 <= y < |level| && level[y].child == p;
        assert level'[y].child == p;
      }
    }
    forall i, y | 0 <= i < |t'.levels| && 0 <= y < |t'.levels[i]|
      ensures t'.levels[i][y].child in t'.heightOf && t'.heightOf[t'.levels[i][y].child] == i
    {
      LevelHeight(t, i, y);
    }
  }

  lemma RekeyedAbove(s: Store, s': Store, t: Tree, t': Tree, k: nat, cap: nat, w: nat, c: nat, u: nat, l: nat, r: nat, q: nat, key: int)
    requires Rekeying(s, s', t, k, cap, w, c, u, l, r, q, key) && t' == RekeyNode(t, k, u + 1, key)
    ensures Above(s', t', k, cap, 0)
  {
    hide LevelOK, Placed, Offset, SortedLevel;
    SiblingPages(s, t, k, cap, w, c, u, l, r, q);
    RekeyedLevels(s, s', t, t', k, cap, w, c, u, l, r, q, key);
    PlacedRekey(t, k, u + 1, key);
    RootHeight(s, t);
  }

  /** A separator changed, and below it pages of level k and of the levels under it, which
      kept their parents, in level k, and their kinds. */
  lemma RekeyedBelow(s: Store, s1: Store, s2: Store, t: Tree, t': Tree, k: nat, cap: nat, w: nat, c: nat, u: nat, l: nat, r: nat, q: nat, key: int)
    requires Rekeying(s, s1, t, k, cap, w, c, u, l, r, q, key) && t' == RekeyNode(t, k, u + 1, key)
    requires AboveSame(s1, s2, t, k)
    ensures Above(s2, t', k, cap, 0)
  {
    hide Above, Rekeying;
    RekeyedAbove(s, s1, t, t', k, cap, w, c, u, l, r, q, key);
    assert AboveSame(s1, s2, t', k);
    AboveFrame(s1, s2, t', k, cap, 0);
  }

  // ------------------------------------------------- joining the slots of siblings

  /** The slots of two siblings with the separator between them: what their parent would
      hold in their place. */
  function Join(l: seq<Slot>, key: int, r: seq<Slot>): (x: seq<Slot>)
    ensures |x| == |l| + |r|
  {
    l + Rekey(key, r)
  }

  lemma JoinChild(l: seq<Slot>, key: int, r: seq<Slot>, d: nat)
    requires d < |l| + |r|
    ensures Join(l, key, r)[d].child == if d < |l| then l[d].child else r[d - |l|].child
  {
  }

  /** The slots from n on, as those of a page whose unused first key is first. */
  function Tail(x: seq<Slot>, n: nat, first: int): (r: seq<Slot>)
    requires n < |x|
    ensures |r| == |x| - n
    ensures forall i :: 0 <= i < |r| ==> r[i].child == x[n + i].child
    ensures forall i :: 0 < i < |r| ==> r[i] == x[n + i]
  {
    [Slot(first, x[n].child)] + x[n + 1..]
  }

  lemma JoinRekey(lo: int, l: seq<Slot>, key: int, r: seq<Slot>)
    requires l != []
    ensures Rekey(lo, l) + Rekey(key, r) == Rekey(lo, Join(l, key, r))
  {
  }

  lemma CutRekey(lo: int, x: seq<Slot>, n: nat, first: int)
    requires 0 < n < |x|
    ensures Rekey(lo, x[..n]) + Rekey(x[n].key, Tail(x, n, first)) == Rekey(lo, x)
  {
    hide Tail, Rekey;
    var whole := Rekey(lo, x[..n]) + Rekey(x[n].key, Tail(x, n, first));
    forall i | 0 <= i < |x|
      ensures whole[i] == Rekey(lo, x)[i]
    {
      RekeyAt(lo, x, i);
      if i < n {
        RekeyAt(lo, x[..n], i);
      } else {
        RekeyAt(x[n].key, Tail(x, n, first), i - n);
      }
    }
  }

  lemma RekeyAt(key: int, slots: seq<Slot>, i: nat)
    requires i < |slots|
    ensures Rekey(key, slots)[i] == if i == 0 then Slot(key, slots[0].child) else slots[i]
  {
  }

  /** A part of the level below: its children are distinct, and its keys are sorted and
      lie between those on its two sides. */
  lemma MiddleOrdered(a: Level, lo: int, x: seq<Slot>, b: Level)
    requires NoDup(a + Rekey(lo, x) + b) && SortedLevel(a + Rekey(lo, x) + b) && x != []
    ensures DistinctChildren(x) && SortedSlots(x)
    ensures a != [] ==> forall i :: 1 <= i < |x| ==> lo <= x[i].key
    ensures b != [] ==> forall i :: 1 <= i < |x| ==> x[i].key <= b[0].key
  {
    var m := Rekey(lo, x);
    var down := a + m + b;
    forall i | 0 <= i < |x|
      ensures down[|a| + i] == m[i] && m[i].child == x[i].child && (i > 0 ==> down[|a| + i] == x[i])
    {
    }
    assert down[|a|] == m[0];
    if b != [] {
      assert down[|a| + |x|] == b[0];
    }
  }

  /** The pair of siblings, and what is on their left and right. */
  lemma SplitAround(up: Level, u: nat)
    requires u + 1 < |up|
    ensures up == up[..u] + [up[u], up[u + 1]] + up[u + 2..]
  {
  }

  /** The children of two siblings, with the separator between the two. */
  function Joined(s: Store, l: nat, r: nat, q: nat, c: nat): (x: seq<Slot>)
    requires c < |SlotsOf(s, q)|
    ensures |x| == |SlotsOf(s, l)| + |SlotsOf(s, r)|
  {
    Join(SlotsOf(s, l), SlotsOf(s, q)[c].key, SlotsOf(s, r))
  }

  lemma PairExpands(s: Store, up: Level, u: nat, x: seq<Slot>)
    requires u + 1 < |up| && SlotsOf(s, up[u].child) != []
    requires x == Join(SlotsOf(s, up[u].child), up[u + 1].key, SlotsOf(s, up[u + 1].child))
    ensures Expand(s, [up[u], up[u + 1]]) == Rekey(up[u].key, x)
    ensures Expand(s, up) == Expand(s, up[..u]) + Rekey(up[u].key, x) + Expand(s, up[u + 2..])
  {
    hide Expand, Join;
    SplitAround(up, u);
    ExpandThree(s, up[..u], [up[u], up[u + 1]], up[u + 2..]);
    ExpandTwo(s, up[u], up[u + 1]);
    JoinRekey(up[u].key, SlotsOf(s, up[u].child), up[u + 1].key, SlotsOf(s, up[u + 1].child));
  }

  /** The keys of x lie between those of the entries before and after entry c. */
  ghost predicate Between(slots: seq<Slot>, c: nat, x: seq<Slot>) {
    && (forall i :: 1 <= i < |x| && 1 < c <= |slots| ==> slots[c - 1].key <= x[i].key)
    && (forall i :: 1 <= i < |x| && c + 1 < |slots| ==> x[i].key <= slots[c + 1].key)
  }

  lemma ExpandFirst(s: Store, up: Level)
    requires up != [] && SlotsOf(s, up[0].child) != []
    ensures Expand(s, up) != [] && Expand(s, up)[0].key == up[0].key
  {
  }

  lemma ExpandNonEmpty(s: Store, up: Level)
    requires up != [] && SlotsOf(s, up[0].child) != []
    ensures Expand(s, up) != []
  {
  }

  /** What a legal tree says of the joined children of two siblings. */
  lemma JoinedOrdered(s: Store, t: Tree, k: nat, cap: nat, ex: nat, w: nat, c: nat, u: nat, l: nat, r: nat, q: nat)
    requires Above(s, t, k, cap, ex) && Siblings(s, t, k + 1, w, c, u, l, r, q)
    ensures var x := Joined(s, l, r, q, c);
            DistinctChildren(x) && SortedSlots(x) && Between(SlotsOf(s, q), c, x)
  {
    hide Above, NoDup, SortedLevel, Expand, Join, DistinctChildren, SortedSlots, Linked, Filled, Offset, Placed, Typed, Rooted;
    var up, down := t.levels[k + 1], t.levels[k];
    var x := Joined(s, l, r, q, c);
    LevelBelow(s, t, k, cap, ex);
    SlotsNonEmpty(s, t, k + 1, cap, ex);
    PairExpands(s, up, u, x);
    var a, b := Expand(s, up[..u]), Expand(s, up[u + 2..]);
    MiddleOrdered(a, up[u].key, x, b);
    if u > 0 {
      ExpandNonEmpty(s, up[..u]);
    }
    if u + 2 < |up| {
      ExpandFirst(s, up[u + 2..]);
    }
  }
}
