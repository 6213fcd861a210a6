/** Moving entries between two sibling internal pages, and merging the two. */
module Borrowing {
  import opened Pages
  import opened Levels
  import opened Trees
  import opened Merging

  // ------------------------------------------------------------------ the cut

  /** Entries can move between pages l and r, children c - 1 and c of page q. */
  ghost predicate Movable(s: Store, cap: nat, l: nat, r: nat, q: nat, c: nat, category: PageType) {
    && l in s && r in s && q in s && l != r && l != q && r != q
    && s[l].InternalPage? && s[r].InternalPage? && s[q].InternalPage?
    && s[l].childCategory == category && s[r].childCategory == category && category != RootPtr
    && s[q].childCategory == Internal
    && 2 <= |s[l].slots| <= cap + 1 && 2 <= |s[r].slots| <= cap + 1 && |s[q].slots| <= cap + 1
    && 0 < c < |s[q].slots| && s[q].slots[c - 1].child == l && s[q].slots[c].child == r
    && DistinctChildren(s[q].slots)
    && var x := Joined(s, l, r, q, c);
       DistinctChildren(x) && SortedSlots(x) && Between(s[q].slots, c, x)
  }

  /** s' is s with the children of l and r shared anew: the first n of them are those of
      l, and the separator in q is the key between the two parts. */
  ghost predicate Recut(s: Store, s': Store, l: nat, r: nat, q: nat, c: nat, n: nat)
    requires c < |SlotsOf(s, q)|
  {
    var x := Joined(s, l, r, q, c);
    && 0 < n < |x| && s'.Keys == s.Keys && l in s && r in s && q in s
    && s[l].InternalPage? && s[r].InternalPage? && s[q].InternalPage? && s[r].slots != []
    && s'[l] == s[l].(slots := x[..n])
    && s'[r] == s[r].(slots := Tail(x, n, s[r].slots[0].key))
    && s'[q] == s[q].(slots := s[q].slots[c := Slot(x[n].key, r)])
    && forall p :: p in s && p != l && p != r && p != q ==> s'[p] == s[p]
  }

  /** Page r has the slots slots. */
  lemma RecutNone(s: Store, cap: nat, l: nat, r: nat, q: nat, c: nat, category: PageType)
    requires Movable(s, cap, l, r, q, c, category)
    ensures c < |SlotsOf(s, q)| && Recut(s, s, l, r, q, c, |SlotsOf(s, l)|)
  {
    var x := Joined(s, l, r, q, c);
    assert Tail(x, |s[l].slots|, s[r].slots[0].key) == s[r].slots;
  }

  /** The changes of one round of a loop that moves entries. */
  ghost predicate TripleChanged(s: Store, s': Store, l: nat, slotsL: seq<Slot>, r: nat, slotsR: seq<Slot>, q: nat, slotsQ: seq<Slot>) {
    && s'.Keys == s.Keys && l in s && r in s && q in s
    && s[l].InternalPage? && s[r].InternalPage? && s[q].InternalPage?
    && s'[l] == s[l].(slots := slotsL) && s'[r] == s[r].(slots := slotsR) && s'[q] == s[q].(slots := slotsQ)
    && forall p :: p in s && p != l && p != r && p != q ==> s'[p] == s[p]
  }

  lemma RecutAgain(s: Store, s1: Store, s2: Store, l: nat, r: nat, q: nat, c: nat, n: nat, m: nat)
    requires c < |SlotsOf(s, q)| && Recut(s, s1, l, r, q, c, n)
    requires 0 < m < |Joined(s, l, r, q, c)|
    requires var x := Joined(s, l, r, q, c);
             TripleChanged(s1, s2, l, x[..m], r, Tail(x, m, SlotsOf(s, r)[0].key), q, SlotsOf(s, q)[c := Slot(x[m].key, r)])
    ensures Recut(s, s2, l, r, q, c, m)
  {
  }

  lemma RecutPages(s: Store, s': Store, cap: nat, l: nat, r: nat, q: nat, c: nat, n: nat, category: PageType)
    requires Movable(s, cap, l, r, q, c, category) && Recut(s, s', l, r, q, c, n)
    ensures {l, r, q} <= s'.Keys && s'[l].InternalPage? && s'[r].InternalPage? && s'[q].InternalPage?
    ensures s'[l].childCategory == category && s'[r].childCategory == category && s'[q].childCategory == Internal
    ensures |s'[l].slots| == n && |s'[r].slots| == |Joined(s, l, r, q, c)| - n && 0 < c < |s'[q].slots| <= cap + 1
    ensures |s'[q].slots| == |SlotsOf(s, q)| && l != r && l != q && r != q && category != RootPtr
  {
  }

  lemma DistinctPart(x: seq<Slot>, n: nat, first: int)
    requires 0 < n < |x| && DistinctChildren(x)
    ensures DistinctChildren(Tail(x, n, first)) && !HasChild(Tail(x, n, first), x[n - 1].child)
    ensures DistinctChildren(x[..n]) && !HasChild(x[..n], x[n].child)
  {
  }

  /** The entry before the cut goes to the right page. */
  lemma TailGrows(x: seq<Slot>, n: nat, first: int)
    requires 0 < n < |x| && |x| - n >= 2 && DistinctChildren(x) && SortedSlots(x)
    ensures InsertEntry(Tail(x, n, first), x[n].key, x[n - 1].child, x[n].child) == Some(Tail(x, n - 1, first))
  {
    var right := Tail(x, n, first);
    DistinctPart(x, n, first);
    assert right[1] == x[n + 1] && right[1..] == x[n + 1..];
    assert right[0].child == x[n].child;
    InsertEntryBefore(right, x[n].key, x[n - 1].child);
    assert [Slot(first, x[n - 1].child), Slot(x[n].key, x[n].child)] + right[1..] == Tail(x, n - 1, first);
  }

  /** The first entry after the cut goes to the left page. */
  lemma FrontGrows(x: seq<Slot>, n: nat)
    requires 2 <= n < |x| && DistinctChildren(x) && SortedSlots(x)
    ensures InsertEntry(x[..n], x[n].key, x[n - 1].child, x[n].child) == Some(x[..n + 1])
  {
    var left := x[..n];
    DistinctPart(x, n, 0);
    InsertEntryAfter(left, x[n].key, n - 1, x[n].child);
    assert left[..n] + [Slot(x[n].key, x[n].child)] + left[n..] == x[..n + 1];
  }

  /** Putting an entry back in its place with another key. */
  lemma SeparatorReplaced(slots: seq<Slot>, c: nat, key: int, l: nat, r: nat)
    requires 0 < c < |slots| && DistinctChildren(slots) && slots[c - 1].child == l && slots[c].child == r
    requires c > 1 ==> slots[c - 1].key <= key
    requires c + 1 < |slots| ==> key <= slots[c + 1].key
    ensures InsertEntry(RemoveAt(slots, c), key, l, r) == Some(slots[c := Slot(key, r)])
  {
    hide DistinctChildren, HasChild, InsertEntry;
    var rest := RemoveAt(slots, c);
    RestDistinct(slots, c);
    PutBack(slots, c, Slot(key, r));
    if |slots| > 2 {
      InsertEntryAfter(rest, key, c - 1, r);
    } else {
      OnlyEntry(rest, key, l, r);
    }
  }

  lemma PutBack(slots: seq<Slot>, c: nat, x: Slot)
    requires 0 < c < |slots|
    ensures RemoveAt(slots, c)[..c] + [x] + RemoveAt(slots, c)[c..] == slots[c := x]
    ensures |slots| == 2 ==> [RemoveAt(slots, c)[0], x] == slots[c := x]
  {
  }

  lemma OnlyEntry(slots: seq<Slot>, key: int, l: nat, r: nat)
    requires |slots| == 1 && slots[0].child == l
    ensures InsertEntry(slots, key, l, r) == Some([slots[0], Slot(key, r)])
  {
  }

  /** The other slots, without the one removed. */
  lemma RestDistinct(slots: seq<Slot>, c: nat)
    requires c < |slots| && DistinctChildren(slots)
    ensures DistinctChildren(RemoveAt(slots, c)) && !HasChild(RemoveAt(slots, c), slots[c].child)
  {
    var rest := RemoveAt(slots, c);
    forall d | 0 <= d < |rest|
      ensures rest[d] == slots[if d < c then d else d + 1]
    {
    }
  }

  /** What a round of stealFromLeftInternalPage does with the pages as they are. */
  lemma RoundLeft(s: Store, s1: Store, cap: nat, l: nat, r: nat, q: nat, c: nat, n: nat, category: PageType)
    requires Movable(s, cap, l, r, q, c, category) && Recut(s, s1, l, r, q, c, n)
    requires 2 <= n && |Joined(s, l, r, q, c)| - n >= 2
    ensures var x, slotsL, slotsR, slotsQ := Joined(s, l, r, q, c), SlotsOf(s1, l), SlotsOf(s1, r), SlotsOf(s1, q);
            && |slotsL| == n && 0 < c < |slotsQ| && slotsR != []
            && InsertEntry(slotsR, slotsQ[c].key, slotsL[n - 1].child, slotsR[0].child) ==
               Some(Tail(x, n - 1, SlotsOf(s, r)[0].key))
            && InsertEntry(RemoveAt(slotsQ, c), slotsL[n - 1].key, l, r) ==
               Some(SlotsOf(s, q)[c := Slot(x[n - 1].key, r)])
            && RemoveAt(slotsL, n - 1) == x[..n - 1]
  {
    hide DistinctChildren, SortedSlots, InsertEntry, Join;
    var x := Joined(s, l, r, q, c);
    TailGrows(x, n, s[r].slots[0].key);
    assert RemoveAt(s1[q].slots, c) == RemoveAt(s[q].slots, c);
    SeparatorReplaced(s[q].slots, c, x[n - 1].key, l, r);
  }

  /** What a round of stealFromRightInternalPage does with the pages as they are. */
  lemma RoundRight(s: Store, s1: Store, cap: nat, l: nat, r: nat, q: nat, c: nat, n: nat, category: PageType)
    requires Movable(s, cap, l, r, q, c, category) && Recut(s, s1, l, r, q, c, n)
    requires 2 <= n && |Joined(s, l, r, q, c)| - n >= 2
    ensures var x, slotsL, slotsR, slotsQ := Joined(s, l, r, q, c), SlotsOf(s1, l), SlotsOf(s1, r), SlotsOf(s1, q);
            && |slotsL| == n && 0 < c < |slotsQ| && |slotsR| >= 2
            && InsertEntry(slotsL, slotsQ[c].key, slotsL[n - 1].child, slotsR[0].child) == Some(x[..n + 1])
            && InsertEntry(RemoveAt(slotsQ, c), slotsR[1].key, l, r) ==
               Some(SlotsOf(s, q)[c := Slot(x[n + 1].key, r)])
            && DeleteLeft(slotsR, 1) == Tail(x, n + 1, SlotsOf(s, r)[0].key)
  {
    hide DistinctChildren, SortedSlots, InsertEntry, Join;
    var x := Joined(s, l, r, q, c);
    FrontGrows(x, n);
    assert RemoveAt(s1[q].slots, c) == RemoveAt(s[q].slots, c);
    SeparatorReplaced(s[q].slots, c, x[n + 1].key, l, r);
  }

  // ------------------------------------------------- the pages around a pair

  /** Pages l and r, nodes u and u + 1 of level k + 1, are siblings under page q, node w of
      the level above; the tree is legal above level k but that page ex, one of the two,
      may have one key too few. */
  ghost predicate Pairing(a: State, k: nat, cap: nat, w: nat, c: nat, u: nat, l: nat, r: nat, q: nat, ex: nat) {
    && Above(a.pages, a.tree, k, cap, ex) && cap >= 5 && (ex == l || ex == r)
    && a.tree.heightOf.Keys <= a.inUse && 0 !in a.inUse
    && (forall p :: p in a.inUse ==> p in a.pages)
    && Siblings(a.pages, a.tree, k + 1, w, c, u, l, r, q)
  }

  /** Page p is a child of l or r, a page of level k. */
  ghost predicate ChildPage(a: State, k: nat, l: nat, r: nat, q: nat, p: nat, parent: nat) {
    && p in a.inUse && p in a.pages && IsTreePage(a.pages[p]) && p != l && p != r && p != q
    && p in a.tree.heightOf && a.tree.heightOf[p] == k && ParentOf(a.pages, p) == parent
  }

  /** The joined children are pages of level k that name l or r as their parent. */
  ghost predicate ChildPages(a: State, k: nat, l: nat, r: nat, q: nat, c: nat)
    requires c < |SlotsOf(a.pages, q)|
  {
    var x := Joined(a.pages, l, r, q, c);
    forall d :: 0 <= d < |x| ==>
      ChildPage(a, k, l, r, q, x[d].child, if d < |SlotsOf(a.pages, l)| then l else r)
  }

  lemma PairHeights(a: State, k: nat, cap: nat, w: nat, c: nat, u: nat, l: nat, r: nat, q: nat, ex: nat)
    requires Pairing(a, k, cap, w, c, u, l, r, q, ex)
    ensures k + 2 < |a.tree.levels| && u + 1 < |a.tree.levels[k + 1]| && w < |a.tree.levels[k + 2]|
    ensures a.tree.levels[k + 1][u].child == l && a.tree.levels[k + 1][u + 1].child == r
    ensures l in a.tree.heightOf && a.tree.heightOf[l] == k + 1 && r in a.tree.heightOf && a.tree.heightOf[r] == k + 1
    ensures q in a.tree.heightOf && a.tree.heightOf[q] == k + 2
    ensures {l, r, q} <= a.inUse && {l, r, q} <= a.pages.Keys && l != r && l != q && r != q
    ensures ParentOf(a.pages, l) == q && ParentOf(a.pages, r) == q && q != 0 && l != 0 && r != 0
    ensures a.pages[l].InternalPage? && a.pages[r].InternalPage? && a.pages[q].InternalPage?
    ensures 0 < c < |a.pages[q].slots| && a.pages[q].slots[c - 1].child == l && a.pages[q].slots[c].child == r
    ensures a.tree.levels[k + 1][u + 1] == a.pages[q].slots[c]
    ensures Above(a.pages, a.tree, k + 1, cap, 0)
    ensures Siblings(a.pages, a.tree, k + 1, w, c, u, l, r, q) && Above(a.pages, a.tree, k, cap, ex)
  {
    hide Above, Linked, Filled, Placed, SortedLevel, NoDup, Typed, Rooted, Offset;
    LevelBelow(a.pages, a.tree, k, cap, ex);
    LevelHeight(a.tree, k + 1, u);
    LevelHeight(a.tree, k + 1, u + 1);
    AboveUpEx(a.pages, a.tree, k, cap, ex);
    SiblingPages(a.pages, a.tree, k + 1, cap, w, c, u, l, r, q);
  }

  lemma PairChildren(a: State, k: nat, cap: nat, w: nat, c: nat, u: nat, l: nat, r: nat, q: nat, ex: nat)
    requires Pairing(a, k, cap, w, c, u, l, r, q, ex)
    ensures c < |SlotsOf(a.pages, q)| && ChildPages(a, k, l, r, q, c)
  {
    hide Above, Siblings, Placed, Typed, Rooted, Linked, Filled, Expand, Offset, SortedLevel, NoDup, Join;
    PairHeights(a, k, cap, w, c, u, l, r, q, ex);
    var x := Joined(a.pages, l, r, q, c);
    LevelBelow(a.pages, a.tree, k, cap, ex);
    AllTreePagesAbove(a.pages, a.tree, k, cap, ex);
    ChildrenOf(a.pages, a.tree, k, cap, ex, l);
    ChildrenOf(a.pages, a.tree, k, cap, ex, r);
    var n := |SlotsOf(a.pages, l)|;
    forall d | 0 <= d < |x|
      ensures ChildPage(a, k, l, r, q, x[d].child, if d < n then l else r)
    {
      JoinChild(SlotsOf(a.pages, l), SlotsOf(a.pages, q)[c].key, SlotsOf(a.pages, r), d);
    }
  }

  lemma PairMovable(a: State, k: nat, cap: nat, w: nat, c: nat, u: nat, l: nat, r: nat, q: nat, ex: nat)
    requires Pairing(a, k, cap, w, c, u, l, r, q, ex)
    ensures Movable(a.pages, cap, l, r, q, c, if k == 0 then Leaf else Internal)
    ensures |SlotsOf(a.pages, l)| - 1 >= MinKeys(cap) - (if ex == l then 1 else 0)
    ensures |SlotsOf(a.pages, r)| - 1 >= MinKeys(cap) - (if ex == r then 1 else 0)
  {
    hide Above, Siblings, Placed, DistinctChildren, SortedSlots, Between, Offset, Linked, NoDup, SortedLevel, Filled, Typed, Rooted;
    PairHeights(a, k, cap, w, c, u, l, r, q, ex);
    LevelBelow(a.pages, a.tree, k, cap, ex);
    NodeKeys(a.pages, a.tree, k + 1, cap, ex, u);
    NodeKeys(a.pages, a.tree, k + 1, cap, ex, u + 1);
    NodeFacts(a.pages, a.tree, k + 1, cap, q);
    SiblingParent(a, k, cap, w, c, u, l, r, q, ex);
    NodeOrdered(a.pages, a.tree, k + 1, cap, w);
    JoinedOrdered(a.pages, a.tree, k, cap, ex, w, c, u, l, r, q);
  }

  lemma SiblingParent(a: State, k: nat, cap: nat, w: nat, c: nat, u: nat, l: nat, r: nat, q: nat, ex: nat)
    requires Pairing(a, k, cap, w, c, u, l, r, q, ex)
    ensures k + 2 < |a.tree.levels| && w < |a.tree.levels[k + 2]| && a.tree.levels[k + 2][w].child == q
  {
  }

  // ------------------------------------------------------------------ links

  lemma StealLinked(s: Store, s2: Store, up: Level, down: Level, u: nat, x: seq<Slot>, n: nat, first: int)
    requires Linked(s, up, down) && NoDup(down) && u + 1 < |up|
    requires SlotsOf(s, up[u].child) != []
    requires x == Join(SlotsOf(s, up[u].child), up[u + 1].key, SlotsOf(s, up[u + 1].child))
    requires 0 < n < |x|
    requires SlotsOf(s2, up[u].child) == x[..n] && SlotsOf(s2, up[u + 1].child) == Tail(x, n, first)
    requires forall j :: 0 <= j < |up| && j != u && j != u + 1 ==> SlotsOf(s2, up[j].child) == SlotsOf(s, up[j].child)
    requires forall d :: 0 <= d < |x| ==> ParentOf(s2, x[d].child) == if d < n then up[u].child else up[u + 1].child
    requires forall i :: 0 <= i < |down| && !HasChild(x, down[i].child) ==>
               ParentOf(s2, down[i].child) == ParentOf(s, down[i].child)
    ensures Linked(s2, up[u + 1 := Slot(x[n].key, up[u + 1].child)], down)
  {
    hide Linked, NoDup, Expand, Join, Parented;
    var y := Slot(x[n].key, up[u + 1].child);
    var a, m, m', b := up[..u], [up[u], up[u + 1]], [up[u], y], up[u + 2..];
    SplitAround(up, u);
    assert up[u + 1 := y] == a + m' + b;
    PairExpands(s, up, u, x);
    ExpandTwo(s2, up[u], y);
    CutRekey(up[u].key, x, n, first);
    StolenParented(s2, up[u], y, x, n, first);
    HeldIsChild(up[u].key, x);
    LinkRegroup(s, s2, a, m, m', b, down);
  }

  lemma HeldIsChild(lo: int, x: seq<Slot>)
    ensures forall p :: HasChild(x, p) ==> Holds(Rekey(lo, x), p)
  {
    forall p | HasChild(x, p)
      ensures Holds(Rekey(lo, x), p)
    {
      var d :| 0 <= d < |x| && x[d].child == p;
      assert Rekey(lo, x)[d].child == p;
    }
  }

  lemma StolenParented(s2: Store, y: Slot, z: Slot, x: seq<Slot>, n: nat, first: int)
    requires 0 < n < |x| && SlotsOf(s2, y.child) == x[..n] && SlotsOf(s2, z.child) == Tail(x, n, first)
    requires forall d :: 0 <= d < |x| ==> ParentOf(s2, x[d].child) == if d < n then y.child else z.child
    ensures Parented(s2, [y, z])
  {
    var m := [y, z];
    forall j, e | 0 <= j < |m| && 0 <= e < |SlotsOf(s2, m[j].child)|
      ensures ParentOf(s2, SlotsOf(s2, m[j].child)[e].child) == m[j].child
    {
      if j == 0 {
        assert SlotsOf(s2, y.child)[e] == x[e];
      } else {
        assert SlotsOf(s2, z.child)[e].child == x[n + e].child;
      }
    }
  }

  lemma MergeLinked(s: Store, s2: Store, up: Level, down: Level, u: nat, x: seq<Slot>)
    requires Linked(s, up, down) && NoDup(down) && u + 1 < |up|
    requires SlotsOf(s, up[u].child) != []
    requires x == Join(SlotsOf(s, up[u].child), up[u + 1].key, SlotsOf(s, up[u + 1].child))
    requires SlotsOf(s2, up[u].child) == x
    requires forall j :: 0 <= j < |up| && j != u && j != u + 1 ==> SlotsOf(s2, up[j].child) == SlotsOf(s, up[j].child)
    requires forall d :: 0 <= d < |x| ==> ParentOf(s2, x[d].child) == up[u].child
    requires forall i :: 0 <= i < |down| && !HasChild(x, down[i].child) ==>
               ParentOf(s2, down[i].child) == ParentOf(s, down[i].child)
    ensures Linked(s2, RemoveAt(up, u + 1), down)
  {
    hide Linked, NoDup, Expand, Join;
    var a, m, m', b := up[..u], [up[u], up[u + 1]], [up[u]], up[u + 2..];
    SplitAround(up, u);
    assert RemoveAt(up, u + 1) == a + m' + b;
    PairExpands(s, up, u, x);
    ExpandSingle(s2, up[u]);
    HeldIsChild(up[u].key, x);
    LinkRegroup(s, s2, a, m, m', b, down);
  }

  /** The nodes of a level that is not the top keep their counts, but for two pages that
      have enough keys. */
  lemma FilledPair(s: Store, s2: Store, t: Tree, t': Tree, level: Level, level': Level, i: nat, cap: nat, ex: nat, l: nat, r: nat)
    requires i + 1 < |t.levels| && i < |t'.levels| && t.levels[i] == level && t'.levels[i] == level'
    requires Filled(s, t, i, cap, ex) && (ex == l || ex == r)
    requires forall j :: 0 <= j < |level'| ==>
               && level'[j].child in s2 && s2[level'[j].child].InternalPage? && level'[j].child != 0
               && s2[level'[j].child].childCategory == (if i == 1 then Leaf else Internal)
    requires forall j :: 0 <= j < |level'| ==>
               if level'[j].child == l || level'[j].child == r
               then KeyCount(SlotsOf(s2, level'[j].child), cap, false, false)
               else Holds(level, level'[j].child) && SlotsOf(s2, level'[j].child) == SlotsOf(s, level'[j].child)
    ensures Filled(s2, t', i, cap, 0)
  {
    forall j | 0 <= j < |level'|
      ensures KeyCount(SlotsOf(s2, level'[j].child), cap, false, false)
    {
      var p := level'[j].child;
      if p != l && p != r {
        var e :| 0 <= e < |level| && level[e].child == p;
        NodeKeys(s, t, i, cap, ex, e);
      }
    }
  }

  // ------------------------------------------------- the end of a steal

  /** The tree above level k is legal again, and level k is as it was. */
  ghost predicate Repaired(a: State, b: State, k: nat, cap: nat)
    requires k < |a.tree.levels|
  {
    && Above(b.pages, b.tree, k, cap, 0) && Progress(a, b, k, 0)
    && b.tree.levels[k] == a.tree.levels[k]
  }

  /** The pages after a steal: the children are shared anew, and those that moved have
      their new parent, page. */
  ghost predicate Stolen(a: State, s1: Store, b: State, l: nat, r: nat, q: nat, c: nat, n: nat, page: nat)
    requires c < |SlotsOf(a.pages, q)|
  {
    && Recut(a.pages, s1, l, r, q, c, n)
    && Reparented(s1, b.pages, page, SlotsOf(s1, page))
    && b.inUse == a.inUse
    && (page == l ==> |SlotsOf(a.pages, l)| <= n) && (page == r ==> n <= |SlotsOf(a.pages, l)|)
    && (page == l || page == r)
  }

  /** The children of l and r are shared anew between the two, and name their new parent;
      no other page changed but their parent q. */
  ghost predicate Resliced(s: Store, s': Store, l: nat, r: nat, q: nat, c: nat, n: nat)
    requires c < |SlotsOf(s, q)|
  {
    var x := Joined(s, l, r, q, c);
    && s'.Keys == s.Keys && 0 < n < |x| && {l, r, q} <= s.Keys
    && s[l].InternalPage? && s[r].InternalPage? && s[q].InternalPage? && s[r].slots != []
    && s'[l] == s[l].(slots := x[..n])
    && s'[r] == s[r].(slots := Tail(x, n, s[r].slots[0].key))
    && s'[q] == s[q].(slots := s[q].slots[c := Slot(x[n].key, r)])
    && (forall d :: 0 <= d < |x| ==> ParentOf(s', x[d].child) == if d < n then l else r)
    && (forall p :: p in s && p != l && p != r && p != q ==>
          if HasChild(x, p) then SameButParent(s[p], s'[p]) else s'[p] == s[p])
  }

  /** Which pages a steal changed, and the parents the children have now. */
  lemma StolenPages(a: State, s1: Store, b: State, k: nat, l: nat, r: nat, q: nat, c: nat, n: nat, page: nat)
    requires c < |SlotsOf(a.pages, q)| && ChildPages(a, k, l, r, q, c) && Stolen(a, s1, b, l, r, q, c, n, page)
    requires l != r && l != q && r != q && DistinctChildren(Joined(a.pages, l, r, q, c))
    ensures Resliced(a.pages, b.pages, l, r, q, c, n)
  {
    var x := Joined(a.pages, l, r, q, c);
    StolenSlots(a, s1, b, k, l, r, q, c, n, page);
    hide DistinctChildren, Join, HasChild, Tail, ChildPages, Reparented;
    forall d | 0 <= d < |x|
      ensures ParentOf(b.pages, x[d].child) == if d < n then l else r
    {
      StolenChild(a, s1, b, k, l, r, q, c, n, page, d);
    }
    forall p | p in a.pages && p != l && p != r && p != q
      ensures if HasChild(x, p) then SameButParent(a.pages[p], b.pages[p]) else b.pages[p] == a.pages[p]
    {
      StolenOther(a, s1, b, k, l, r, q, c, n, page, p);
    }
  }

  lemma StolenChild(a: State, s1: Store, b: State, k: nat, l: nat, r: nat, q: nat, c: nat, n: nat, page: nat, d: nat)
    requires c < |SlotsOf(a.pages, q)| && ChildPages(a, k, l, r, q, c) && Stolen(a, s1, b, l, r, q, c, n, page)
    requires l != r && l != q && r != q && DistinctChildren(Joined(a.pages, l, r, q, c))
    requires d < |Joined(a.pages, l, r, q, c)|
    ensures ParentOf(b.pages, Joined(a.pages, l, r, q, c)[d].child) == if d < n then l else r
  {
    var x := Joined(a.pages, l, r, q, c);
    PartChildren(x, n, SlotsOf(a.pages, r)[0].key);
    hide DistinctChildren, Join, HasChild, Tail;
    assert ChildPage(a, k, l, r, q, x[d].child, if d < |SlotsOf(a.pages, l)| then l else r);
  }

  lemma StolenOther(a: State, s1: Store, b: State, k: nat, l: nat, r: nat, q: nat, c: nat, n: nat, page: nat, p: nat)
    requires c < |SlotsOf(a.pages, q)| && ChildPages(a, k, l, r, q, c) && Stolen(a, s1, b, l, r, q, c, n, page)
    requires l != r && l != q && r != q && DistinctChildren(Joined(a.pages, l, r, q, c))
    requires p in a.pages && p != l && p != r && p != q
    ensures p in b.pages
    ensures if HasChild(Joined(a.pages, l, r, q, c), p) then SameButParent(a.pages[p], b.pages[p]) else b.pages[p] == a.pages[p]
  {
    var x := Joined(a.pages, l, r, q, c);
    PartChildren(x, n, SlotsOf(a.pages, r)[0].key);
    hide DistinctChildren, Join, HasChild, Tail;
    if HasChild(x, p) {
      var d := ChildIndex(x, p);
      assert ChildPage(a, k, l, r, q, x[d].child, if d < |SlotsOf(a.pages, l)| then l else r);
    }
  }

  /** The children on the two sides of a cut. */
  lemma PartChildren(x: seq<Slot>, n: nat, first: int)
    requires 0 < n < |x| && DistinctChildren(x)
    ensures forall d :: 0 <= d < |x| ==> (HasChild(x[..n], x[d].child) <==> d < n)
    ensures forall d :: 0 <= d < |x| ==> (HasChild(Tail(x, n, first), x[d].child) <==> n <= d)
    ensures forall p :: HasChild(x[..n], p) || HasChild(Tail(x, n, first), p) ==> HasChild(x, p)
  {
    var front, tail := x[..n], Tail(x, n, first);
    forall d | 0 <= d < |x|
      ensures HasChild(front, x[d].child) <==> d < n
      ensures HasChild(tail, x[d].child) <==> n <= d
    {
      if d < n {
        assert front[d].child == x[d].child;
      } else {
        assert tail[d - n].child == x[d].child;
      }
    }
    forall p | HasChild(front, p) || HasChild(tail, p)
      ensures HasChild(x, p)
    {
      if HasChild(front, p) {
        var d := ChildIndex(front, p);
        assert x[d].child == p;
      } else {
        var d := ChildIndex(tail, p);
        assert x[n + d].child == p;
      }
    }
  }

  /** Reparenting did not touch the three pages. */
  lemma StolenSlots(a: State, s1: Store, b: State, k: nat, l: nat, r: nat, q: nat, c: nat, n: nat, page: nat)
    requires c < |SlotsOf(a.pages, q)| && ChildPages(a, k, l, r, q, c) && Stolen(a, s1, b, l, r, q, c, n, page)
    requires l != r && l != q && r != q && DistinctChildren(Joined(a.pages, l, r, q, c))
    ensures {l, r, q} <= s1.Keys && b.pages.Keys == s1.Keys
    ensures b.pages[l] == s1[l] && b.pages[r] == s1[r] && b.pages[q] == s1[q]
  {
    var x := Joined(a.pages, l, r, q, c);
    PartChildren(x, n, SlotsOf(a.pages, r)[0].key);
    hide DistinctChildren, Join, HasChild, Tail;
    forall p | HasChild(x, p)
      ensures p != l && p != r && p != q
    {
      var d := ChildIndex(x, p);
      assert ChildPage(a, k, l, r, q, x[d].child, if d < |SlotsOf(a.pages, l)| then l else r);
    }
  }

  /** The slots of two siblings with the key between them. */
  lemma JoinedIs(s: Store, l: nat, r: nat, q: nat, c: nat)
    requires c < |SlotsOf(s, q)| && SlotsOf(s, r) != []
    ensures Joined(s, l, r, q, c) == SlotsOf(s, l) + [Slot(SlotsOf(s, q)[c].key, SlotsOf(s, r)[0].child)] + SlotsOf(s, r)[1..]
  {
  }

  /** The two pages and their parent once the slots of the pair are cut at n, and the pages
      that the children name. */
  ghost predicate CutAt(s: Store, s': Store, l: nat, r: nat, q: nat, c: nat, n: nat)
    requires c < |SlotsOf(s, q)|
  {
    var x := Joined(s, l, r, q, c);
    && SlotsOf(s, r) != [] && 0 < n < |x|
    && SlotsOf(s', l) == x[..n] && SlotsOf(s', r) == [Slot(SlotsOf(s, r)[0].key, x[n].child)] + x[n + 1..]
    && SlotsOf(s', q) == SlotsOf(s, q)[c := Slot(x[n].key, r)]
    && forall d :: 0 <= d < |x| ==> ParentOf(s', x[d].child) == if d < n then l else r
  }

  lemma ReslicedCut(s: Store, s': Store, l: nat, r: nat, q: nat, c: nat, n: nat)
    requires c < |SlotsOf(s, q)| && Resliced(s, s', l, r, q, c, n)
    ensures CutAt(s, s', l, r, q, c, n)
  {
    hide Joined;
  }

  /** How many children each page has then, and which. */
  lemma CutAtSlots(s: Store, s': Store, l: nat, r: nat, q: nat, c: nat, n: nat)
    requires c < |SlotsOf(s, q)| && CutAt(s, s', l, r, q, c, n)
    ensures SlotsOf(s, r) != [] && |SlotsOf(s', l)| == n && |SlotsOf(s', r)| == |SlotsOf(s, l)| + |SlotsOf(s, r)| - n
    ensures var ls, rs, qs := SlotsOf(s, l), SlotsOf(s, r), SlotsOf(s, q);
            var x := ls + [Slot(qs[c].key, rs[0].child)] + rs[1..];
            && SlotsOf(s', l) == x[..n] && SlotsOf(s', r)[0].child == x[n].child && SlotsOf(s', r)[1..] == x[n + 1..]
            && |SlotsOf(s', q)| == |qs| && SlotsOf(s', q)[c] == Slot(x[n].key, r)
            && (forall d :: 0 <= d < n ==> ParentOf(s', x[d].child) == l) && (forall d :: n <= d < |x| ==> ParentOf(s', x[d].child) == r)
  {
    JoinedIs(s, l, r, q, c);
  }

  /** The left page after a merge. */
  lemma TakenOverSlots(b: State, d: State, l: nat, r: nat, x: seq<Slot>)
    requires TakenOver(b, d, l, r, x)
    ensures l in d.inUse && r !in d.inUse && SlotsOf(d.pages, l) == x
  {
  }

  /** What becomes of internal page p and its left sibling l, around entry c of page q, when p
      is short: a sibling that is at most half full takes all of p's entries and p is freed,
      another gives p half of what it has more. */
  ghost predicate AdjustedLeft(s: Store, s': Store, inUse': set<nat>, l: nat, p: nat, q: nat, c: nat, cap: nat) {
    && 0 < c < |SlotsOf(s, q)| && l in inUse'
    && var few, many := |SlotsOf(s, p)|, |SlotsOf(s, l)|;
       if many - 1 <= cap / 2 then p !in inUse' && SlotsOf(s', l) == Joined(s, l, p, q, c)
       else p in inUse' && few <= many && CutAt(s, s', l, p, q, c, many - (many - few) / 2)
  }

  /** The same with its right sibling r, which is the page freed. */
  ghost predicate AdjustedRight(s: Store, s': Store, inUse': set<nat>, p: nat, r: nat, q: nat, c: nat, cap: nat) {
    && 0 < c < |SlotsOf(s, q)| && p in inUse'
    && var few, many := |SlotsOf(s, p)|, |SlotsOf(s, r)|;
       if many - 1 <= cap / 2 then r !in inUse' && SlotsOf(s', p) == Joined(s, p, r, q, c)
       else r in inUse' && few <= many && CutAt(s, s', p, r, q, c, few + (many - few) / 2)
  }

  lemma AdjustedOnce(s: Store, s': Store, inUse': set<nat>, q: nat, c: nat, p: nat, cap: nat)
    requires DistinctChildren(SlotsOf(s, q)) && c < |SlotsOf(s, q)| && SlotsOf(s, q)[c].child == p
    requires c > 0 ==> AdjustedLeft(s, s', inUse', SlotsOf(s, q)[c - 1].child, p, q, c, cap)
    requires c == 0 && |SlotsOf(s, q)| > 1 ==> AdjustedRight(s, s', inUse', p, SlotsOf(s, q)[1].child, q, 1, cap)
    ensures forall e :: 0 <= e < |SlotsOf(s, q)| && SlotsOf(s, q)[e].child == p ==>
              && (e > 0 ==> AdjustedLeft(s, s', inUse', SlotsOf(s, q)[e - 1].child, p, q, e, cap))
              && (e == 0 && |SlotsOf(s, q)| > 1 ==> AdjustedRight(s, s', inUse', p, SlotsOf(s, q)[1].child, q, 1, cap))
  {
    hide AdjustedLeft, AdjustedRight;
  }

  /** A pair whose children were shared anew, with enough keys on both sides. */
  ghost predicate Reslicing(a: State, b: State, k: nat, cap: nat, w: nat, c: nat, u: nat, l: nat, r: nat, q: nat, ex: nat, n: nat) {
    && Pairing(a, k, cap, w, c, u, l, r, q, ex)
    && c < |SlotsOf(a.pages, q)| && ChildPages(a, k, l, r, q, c) && Resliced(a.pages, b.pages, l, r, q, c, n)
    && k + 1 < |a.tree.levels| && u + 1 < |a.tree.levels[k + 1]| && n < |Joined(a.pages, l, r, q, c)|
    && b.inUse == a.inUse && b.tree == RekeyNode(a.tree, k + 1, u + 1, Joined(a.pages, l, r, q, c)[n].key)
    && KeyCount(SlotsOf(b.pages, l), cap, false, false) && KeyCount(SlotsOf(b.pages, r), cap, false, false)
  }

  lemma ReslicedPages(s: Store, s': Store, l: nat, r: nat, q: nat, c: nat, n: nat)
    requires c < |SlotsOf(s, q)| && Resliced(s, s', l, r, q, c, n)
    ensures var x := Joined(s, l, r, q, c);
            && s'.Keys == s.Keys && 0 < n < |x| && {l, r, q} <= s.Keys && SlotsOf(s, r) != []
            && SlotsOf(s', l) == x[..n] && SlotsOf(s', r) == Tail(x, n, SlotsOf(s, r)[0].key)
            && SlotsOf(s', q) == SlotsOf(s, q)[c := Slot(x[n].key, r)]
            && (forall d :: 0 <= d < |x| ==> ParentOf(s', x[d].child) == if d < n then l else r)
            && (forall p :: ParentOf(s', p) == ParentOf(s, p) || HasChild(x, p))
            && (forall p :: p != l && p != r && p != q ==> SlotsOf(s', p) == SlotsOf(s, p))
            && (forall p :: p in s && p != q && !HasChild(x, p) ==> SameButParent(s[p], s'[p]) || s[p] == s'[p] || p == l || p == r)
  {
    hide Join, HasChild, Tail;
  }

  lemma ReslicedLinked(a: State, b: State, k: nat, cap: nat, w: nat, c: nat, u: nat, l: nat, r: nat, q: nat, ex: nat, n: nat)
    requires Reslicing(a, b, k, cap, w, c, u, l, r, q, ex, n)
    ensures Linked(b.pages, b.tree.levels[k + 1], a.tree.levels[k])
  {
    hide Above, Siblings, Resliced, ChildPages, Pairing, Placed, Typed, Rooted, Linked, NoDup, SortedLevel, Join, Tail, HasChild, KeyCount, Filled;
    PairHeights(a, k, cap, w, c, u, l, r, q, ex);
    LevelBelow(a.pages, a.tree, k, cap, ex);
    ReslicedPages(a.pages, b.pages, l, r, q, c, n);
    var up, down := a.tree.levels[k + 1], a.tree.levels[k];
    var x := Joined(a.pages, l, r, q, c);
    SlotsNonEmpty(a.pages, a.tree, k + 1, cap, ex);
    OtherNodes(a.tree, k + 1, u, up);
    StealLinked(a.pages, b.pages, up, down, u, x, n, SlotsOf(a.pages, r)[0].key);
  }

  /** The other nodes of the level are other pages, and not of the level above. */
  lemma OtherNodes(t: Tree, i: nat, u: nat, level: Level)
    requires Placed(t) && i < |t.levels| && t.levels[i] == level && u + 1 < |level|
    ensures forall j :: 0 <= j < |level| ==>
              && level[j].child in t.heightOf && t.heightOf[level[j].child] == i
              && (j != u && j != u + 1 ==> level[j].child != level[u].child && level[j].child != level[u + 1].child)
  {
    assert NoDup(level);
    forall j | 0 <= j < |level|
      ensures level[j].child in t.heightOf && t.heightOf[level[j].child] == i
    {
      LevelHeight(t, i, j);
    }
  }

  lemma ReslicedOne(s: Store, s': Store, l: nat, r: nat, q: nat, c: nat, n: nat, p: nat)
    requires c < |SlotsOf(s, q)| && Resliced(s, s', l, r, q, c, n)
    requires p in s && p != q && s[p].InternalPage? && !HasChild(Joined(s, l, r, q, c), p)
    ensures p in s' && s'[p].InternalPage? && s'[p].childCategory == s[p].childCategory
    ensures p != l && p != r ==> s'[p] == s[p]
  {
    hide Join, HasChild, Tail;
  }

  /** A node of the level of the pair. */
  lemma ReslicedNode(a: State, b: State, k: nat, cap: nat, w: nat, c: nat, u: nat, l: nat, r: nat, q: nat, ex: nat, n: nat, j: nat)
    requires Reslicing(a, b, k, cap, w, c, u, l, r, q, ex, n) && j < |a.tree.levels[k + 1]|
    ensures var p := a.tree.levels[k + 1][j].child;
            && p in b.pages && b.pages[p].InternalPage? && p != 0
            && b.pages[p].childCategory == (if k == 0 then Leaf else Internal)
            && (p != l && p != r ==> SlotsOf(b.pages, p) == SlotsOf(a.pages, p))
  {
    hide Above, Siblings, ChildPages, Placed, Rooted, Linked, NoDup, SortedLevel, Join, Tail, KeyCount, Filled, Resliced, HasChild;
    PairHeights(a, k, cap, w, c, u, l, r, q, ex);
    LevelBelow(a.pages, a.tree, k, cap, ex);
    var p := a.tree.levels[k + 1][j].child;
    NodeKeys(a.pages, a.tree, k + 1, cap, ex, j);
    LevelHeight(a.tree, k + 1, j);
    if HasChild(Joined(a.pages, l, r, q, c), p) {
      NotAChild(a, k, l, r, q, c, p);
    }
    ReslicedOne(a.pages, b.pages, l, r, q, c, n, p);
  }

  lemma ReslicedFilled(a: State, b: State, k: nat, cap: nat, w: nat, c: nat, u: nat, l: nat, r: nat, q: nat, ex: nat, n: nat)
    requires Reslicing(a, b, k, cap, w, c, u, l, r, q, ex, n)
    ensures Filled(b.pages, b.tree, k + 1, cap, 0)
  {
    hide Above, Siblings, ChildPages, Placed, Rooted, Typed, Linked, NoDup, SortedLevel, Join, Tail, KeyCount, Filled, Resliced, HasChild, Offset, Expand, DistinctChildren;
    PairHeights(a, k, cap, w, c, u, l, r, q, ex);
    LevelBelow(a.pages, a.tree, k, cap, ex);
    var level, level' := a.tree.levels[k + 1], b.tree.levels[k + 1];
    forall j | 0 <= j < |level'|
      ensures level'[j].child == level[j].child && Holds(level, level[j].child)
      ensures var p := level[j].child;
              && p in b.pages && b.pages[p].InternalPage? && p != 0
              && b.pages[p].childCategory == (if k == 0 then Leaf else Internal)
              && (p != l && p != r ==> SlotsOf(b.pages, p) == SlotsOf(a.pages, p))
    {
      ReslicedNode(a, b, k, cap, w, c, u, l, r, q, ex, n, j);
    }
    FilledPair(a.pages, b.pages, a.tree, b.tree, level, level', k + 1, cap, ex, l, r);
  }

  lemma NotAChild(a: State, k: nat, l: nat, r: nat, q: nat, c: nat, p: nat)
    requires c < |SlotsOf(a.pages, q)| && ChildPages(a, k, l, r, q, c)
    requires HasChild(Joined(a.pages, l, r, q, c), p)
    ensures p in a.tree.heightOf && a.tree.heightOf[p] == k && p in a.inUse && p in a.pages && IsTreePage(a.pages[p])
    ensures p != l && p != r && p != q
  {
    hide HasChild, Join;
    var x := Joined(a.pages, l, r, q, c);
    var d := ChildIndex(x, p);
    assert ChildPage(a, k, l, r, q, x[d].child, if d < |SlotsOf(a.pages, l)| then l else r);
  }

  lemma ReslicedAboveSame(a: State, s1: Store, b: Store, i: nat, l: nat, r: nat, q: nat, c: nat, n: nat)
    requires c < |SlotsOf(a.pages, q)| && Resliced(a.pages, b, l, r, q, c, n)
    requires s1 == a.pages[q := b[q]]
    requires Typed(a.pages, a.tree) && Rooted(a.pages, a.tree) && l != q && r != q
    requires l in a.tree.heightOf && a.tree.heightOf[l] == i && r in a.tree.heightOf && a.tree.heightOf[r] == i
    requires q in a.tree.heightOf && a.tree.heightOf[q] == i + 1
    requires forall p :: HasChild(Joined(a.pages, l, r, q, c), p) ==> p in a.tree.heightOf && a.tree.heightOf[p] < i
    ensures AboveSame(s1, b, a.tree, i)
  {
    hide Join, HasChild, Tail;
  }

  lemma ReslicedAbove(a: State, b: State, k: nat, cap: nat, w: nat, c: nat, u: nat, l: nat, r: nat, q: nat, ex: nat, n: nat)
    requires Reslicing(a, b, k, cap, w, c, u, l, r, q, ex, n)
    requires SortedLevel(b.tree.levels[k + 1])
    ensures Above(b.pages, b.tree, k + 1, cap, 0)
  {
    hide Above, Siblings, ChildPages, Placed, Typed, Rooted, Linked, NoDup, SortedLevel, Join, Tail, KeyCount, Filled, HasChild, AboveSame, Pairing;
    PairHeights(a, k, cap, w, c, u, l, r, q, ex);
    LevelBelow(a.pages, a.tree, k, cap, ex);
    var x := Joined(a.pages, l, r, q, c);
    forall p | HasChild(x, p)
      ensures p in a.tree.heightOf && a.tree.heightOf[p] == k
    {
      NotAChild(a, k, l, r, q, c, p);
    }
    var s1 := a.pages[q := b.pages[q]];
    ReslicedAboveSame(a, s1, b.pages, k + 1, l, r, q, c, n);
    RekeyedBelow(a.pages, s1, b.pages, a.tree, b.tree, k + 1, cap, w, c, u, l, r, q, x[n].key);
  }

  lemma ReslicedProgress(a: State, b: State, k: nat, cap: nat, w: nat, c: nat, u: nat, l: nat, r: nat, q: nat, ex: nat, n: nat)
    requires Reslicing(a, b, k, cap, w, c, u, l, r, q, ex, n)
    ensures Progress(a, b, k, 0) && b.tree.levels[k] == a.tree.levels[k]
  {
    hide Above, Siblings, ChildPages, Placed, Linked, NoDup, SortedLevel, Join, Tail, KeyCount, Filled, HasChild, Typed, Rooted;
    PairHeights(a, k, cap, w, c, u, l, r, q, ex);
    AllTreePagesAbove(a.pages, a.tree, k, cap, ex);
    var x := Joined(a.pages, l, r, q, c);
    forall p | HasChild(x, p)
      ensures p in a.tree.heightOf && a.tree.heightOf[p] == k
    {
      NotAChild(a, k, l, r, q, c, p);
    }
    assert b.tree.levels[..k] == a.tree.levels[..k];
  }

  lemma ReslicedRepaired(a: State, b: State, k: nat, cap: nat, w: nat, c: nat, u: nat, l: nat, r: nat, q: nat, ex: nat, n: nat)
    requires Reslicing(a, b, k, cap, w, c, u, l, r, q, ex, n)
    ensures k < |a.tree.levels| && Repaired(a, b, k, cap)
  {
    hide Siblings, ChildPages, Placed, Linked, NoDup, SortedLevel, Join, Tail, KeyCount, Filled, HasChild, Typed, Rooted, Progress, Resliced, Above;
    PairHeights(a, k, cap, w, c, u, l, r, q, ex);
    LevelBelow(a.pages, a.tree, k, cap, ex);
    ReslicedLinked(a, b, k, cap, w, c, u, l, r, q, ex, n);
    ReslicedFilled(a, b, k, cap, w, c, u, l, r, q, ex, n);
    ReslicedProgress(a, b, k, cap, w, c, u, l, r, q, ex, n);
    SlotsNonEmpty(b.pages, b.tree, k + 1, cap, 0);
    SortedUp(b.pages, b.tree.levels[k + 1], a.tree.levels[k]);
    ReslicedAbove(a, b, k, cap, w, c, u, l, r, q, ex, n);
    AboveDown(b.pages, b.tree, k, cap);
  }

  /** A legal level under a legal tree. */
  lemma AboveDown(s: Store, t: Tree, k: nat, cap: nat)
    requires Above(s, t, k + 1, cap, 0) && SortedLevel(t.levels[k])
    requires Filled(s, t, k + 1, cap, 0) && Linked(s, t.levels[k + 1], t.levels[k])
    ensures Above(s, t, k, cap, 0)
  {
    assert LevelOK(s, t, k + 1, cap, 0);
  }

  /** The children of both pages while entries move. */
  lemma RecutChildren(a: State, s1: Store, k: nat, l: nat, r: nat, q: nat, c: nat, n: nat)
    requires c < |SlotsOf(a.pages, q)| && ChildPages(a, k, l, r, q, c) && Recut(a.pages, s1, l, r, q, c, n)
    ensures forall d :: 0 <= d < |SlotsOf(s1, l)| ==> var p := SlotsOf(s1, l)[d].child;
              p != l && p != r && p in a.inUse && p in s1 && IsTreePage(s1[p])
    ensures forall d :: 0 <= d < |SlotsOf(s1, r)| ==> var p := SlotsOf(s1, r)[d].child;
              p != l && p != r && p in a.inUse && p in s1 && IsTreePage(s1[p])
  {
    var x := Joined(a.pages, l, r, q, c);
    hide Join;
    forall d | 0 <= d < |SlotsOf(s1, l)|
      ensures var p := SlotsOf(s1, l)[d].child;
              p != l && p != r && p in a.inUse && p in s1 && IsTreePage(s1[p])
    {
      assert ChildPage(a, k, l, r, q, x[d].child, if d < |SlotsOf(a.pages, l)| then l else r);
    }
    forall d | 0 <= d < |SlotsOf(s1, r)|
      ensures var p := SlotsOf(s1, r)[d].child;
              p != l && p != r && p in a.inUse && p in s1 && IsTreePage(s1[p])
    {
      assert ChildPage(a, k, l, r, q, x[n + d].child, if n + d < |SlotsOf(a.pages, l)| then l else r);
    }
  }

  lemma MovableSizes(s: Store, cap: nat, l: nat, r: nat, q: nat, c: nat, category: PageType)
    requires Movable(s, cap, l, r, q, c, category)
    ensures l in s && r in s && q in s && s[l].InternalPage? && s[r].InternalPage? && s[q].InternalPage?
    ensures 2 <= |s[l].slots| <= cap + 1 && 2 <= |s[r].slots| <= cap + 1 && 0 < c < |s[q].slots|
    ensures l != r && l != q && r != q && DistinctChildren(Joined(s, l, r, q, c))
  {
  }

  // ------------------------------------------------- joining two pages

  /** Pages l and r can be joined around key. */
  ghost predicate Joinable(s: Store, cap: nat, l: nat, r: nat, key: int, category: PageType) {
    && l in s && r in s && l != r && s[l].InternalPage? && s[r].InternalPage?
    && s[l].childCategory == category && s[r].childCategory == category && category != RootPtr
    && 2 <= |s[l].slots| && 2 <= |s[r].slots|
    && var x := Join(s[l].slots, key, s[r].slots);
       DistinctChildren(x) && SortedSlots(x) && |x| <= cap + 1
  }

  /** The first i children of r have joined those of l; those that moved are off r, but
      for the first. */
  ghost predicate PartJoined(s: Store, s': Store, l: nat, r: nat, key: int, i: nat)
  {
    && l in s && r in s && s[l].InternalPage? && s[r].InternalPage?
    && 1 <= i <= |s[r].slots|
    && var x := Join(s[l].slots, key, s[r].slots);
       PairChanged(s, s', l, s[l].(slots := x[..|s[l].slots| + i]),
                   r, s[r].(slots := [s[r].slots[0]] + s[r].slots[i..]))
  }

  lemma PartJoinedPages(s: Store, s': Store, cap: nat, l: nat, r: nat, key: int, category: PageType, i: nat)
    requires Joinable(s, cap, l, r, key, category) && PartJoined(s, s', l, r, key, i)
    ensures {l, r} <= s'.Keys && s'[l].InternalPage? && s'[r].InternalPage? && s[r].InternalPage? && l != r
    ensures s'[l].childCategory == category && s'[l].slots != [] && i <= |s[r].slots|
    ensures |s'[l].slots| == |s[l].slots| + i && |s[l].slots| + |s[r].slots| <= cap + 1
    ensures |s'[r].slots| == |s[r].slots| - i + 1
    ensures i < |s[r].slots| ==> s'[r].slots[1] == s[r].slots[i]
  {
  }

  /** What the insertEntry calls of mergeInternalPages compute. */
  lemma JoinRound(l: seq<Slot>, key: int, r: seq<Slot>, i: nat)
    requires 2 <= |l| && 2 <= |r| && i < |r|
    requires DistinctChildren(Join(l, key, r)) && SortedSlots(Join(l, key, r))
    ensures var x, n := Join(l, key, r), |l| + i;
            && InsertEntry(x[..n], if i == 0 then key else r[i].key, x[n - 1].child, r[i].child) == Some(x[..n + 1])
            && (i > 0 ==> x[n - 1].child == r[i - 1].child)
  {
    hide InsertEntry, DistinctChildren, SortedSlots;
    FrontGrows(Join(l, key, r), |l| + i);
  }

  lemma JoinStart(s: Store, cap: nat, l: nat, r: nat, key: int, category: PageType)
    requires Joinable(s, cap, l, r, key, category)
    ensures l in s && r in s && s[l].InternalPage? && s[r].InternalPage? && s[l].childCategory == category
    ensures 2 <= |s[l].slots| <= cap && 2 <= |s[r].slots| && cap > 0
    ensures var left, entries := s[l].slots, s[r].slots;
            InsertEntry(left, key, left[|left| - 1].child, entries[0].child) ==
            Some(Join(left, key, entries)[..|left| + 1])
  {
    hide InsertEntry, DistinctChildren, SortedSlots;
    var left, entries := s[l].slots, s[r].slots;
    assert Join(left, key, entries)[..|left|] == left;
    JoinRound(left, key, entries, 0);
  }

  lemma JoinNow(s: Store, s1: Store, cap: nat, l: nat, r: nat, key: int, category: PageType, i: nat)
    requires Joinable(s, cap, l, r, key, category) && PartJoined(s, s1, l, r, key, i) && i < |SlotsOf(s, r)|
    ensures var left, entries := s[l].slots, s[r].slots;
            InsertEntry(SlotsOf(s1, l), entries[i].key, entries[i - 1].child, entries[i].child) ==
            Some(Join(left, key, entries)[..|left| + i + 1])
  {
    hide InsertEntry, DistinctChildren, SortedSlots, Join;
    JoinRound(s[l].slots, key, s[r].slots, i);
  }

  lemma JoinFirst(s: Store, s': Store, cap: nat, l: nat, r: nat, key: int, category: PageType)
    requires Joinable(s, cap, l, r, key, category)
    requires s' == s[l := s[l].(slots := Join(s[l].slots, key, s[r].slots)[..|s[l].slots| + 1])]
    ensures PartJoined(s, s', l, r, key, 1)
  {
    assert [s[r].slots[0]] + s[r].slots[1..] == s[r].slots;
  }

  lemma JoinNext(s: Store, s1: Store, s2: Store, cap: nat, l: nat, r: nat, key: int, category: PageType, i: nat)
    requires Joinable(s, cap, l, r, key, category) && PartJoined(s, s1, l, r, key, i) && i < |SlotsOf(s, r)|
    requires {l, r} <= s1.Keys && s1[l].InternalPage? && s1[r].InternalPage? && |SlotsOf(s1, r)| > 1
    requires PairChanged(s1, s2, l, s1[l].(slots := Join(s[l].slots, key, s[r].slots)[..|s[l].slots| + i + 1]),
                         r, s1[r].(slots := RemoveAt(s1[r].slots, 1)))
    ensures PartJoined(s, s2, l, r, key, i + 1)
  {
    var slots := s[r].slots;
    assert RemoveAt([slots[0]] + slots[i..], 1) == [slots[0]] + slots[i + 1..];
  }

  // ------------------------------------------------- the end of a merge

  /** Page l has taken over the children x of both siblings, and page r is free. */
  ghost predicate TakenOver(b: State, d: State, l: nat, r: nat, x: seq<Slot>) {
    && d.tree == b.tree && d.inUse == b.inUse - {r} && l in d.inUse && l in b.pages && l in d.pages
    && b.pages[l].InternalPage? && d.pages[l] == b.pages[l].(slots := x)
    && 0 in b.pages && 0 in d.pages && b.pages[0].RootPtrPage? && d.pages[0].RootPtrPage?
    && d.pages[0].root == b.pages[0].root && d.pages[0].rootCategory == b.pages[0].rootCategory
    && forall p :: p in d.inUse && p != l ==>
         && p in b.pages && p in d.pages
         && d.pages[p] == if HasChild(x, p) then WithParent(b.pages[p], l) else b.pages[p]
  }

  /** All that is known when two siblings have been merged: a is the state before, b that
      after their parent lost its entry, d the last. */
  ghost predicate PairMerged(a: State, b: State, d: State, k: nat, cap: nat, w: nat, c: nat, u: nat, l: nat, r: nat, q: nat, ex: nat) {
    && Pairing(a, k, cap, w, c, u, l, r, q, ex)
    && c < |SlotsOf(a.pages, q)| && ChildPages(a, k, l, r, q, c)
    && k + 1 < |a.tree.levels| && u + 1 < |a.tree.levels[k + 1]|
    && Detached(a, b, k + 1, cap, u + 1, r) && 0 !in b.inUse
    && |Joined(a.pages, l, r, q, c)| <= cap + 1
    && TakenOver(b, d, l, r, Joined(a.pages, l, r, q, c))
  }

  /** A node of the level of the two siblings, afterwards. */
  lemma MergedNode(a: State, b: State, d: State, k: nat, cap: nat, w: nat, c: nat, u: nat, l: nat, r: nat, q: nat, ex: nat, p: nat)
    requires PairMerged(a, b, d, k, cap, w, c, u, l, r, q, ex)
    requires p in a.tree.heightOf && a.tree.heightOf[p] == k + 1 && p != r
    ensures p in a.pages && a.pages[p].InternalPage? && p != 0
    ensures p in d.pages && d.pages[p].InternalPage? && d.pages[p].childCategory == (if k == 0 then Leaf else Internal)
    ensures SlotsOf(d.pages, p) == (if p == l then Joined(a.pages, l, r, q, c) else SlotsOf(a.pages, p))
  {
    hide Above, Siblings, ChildPages, Placed, Join, HasChild, KeyCount, Rooted;
    PairHeights(a, k, cap, w, c, u, l, r, q, ex);
    LevelBelow(a.pages, a.tree, k, cap, ex);
    var j := NodeIndex(a.tree, k + 1, p);
    NodeKeys(a.pages, a.tree, k + 1, cap, ex, j);
    if HasChild(Joined(a.pages, l, r, q, c), p) {
      NotAChild(a, k, l, r, q, c, p);
    }
  }

  /** A page below the two siblings, afterwards. */
  lemma MergedChild(a: State, b: State, d: State, k: nat, cap: nat, w: nat, c: nat, u: nat, l: nat, r: nat, q: nat, ex: nat, p: nat)
    requires PairMerged(a, b, d, k, cap, w, c, u, l, r, q, ex)
    requires p in a.tree.heightOf && a.tree.heightOf[p] <= k
    ensures p in a.pages && p in d.pages && IsTreePage(a.pages[p]) && SameButParent(a.pages[p], d.pages[p])
    ensures ParentOf(d.pages, p) == if HasChild(Joined(a.pages, l, r, q, c), p) then l else ParentOf(a.pages, p)
    ensures a.tree.heightOf[p] < k ==> d.pages[p] == a.pages[p]
  {
    hide Above, Siblings, ChildPages, Placed, Join, HasChild, KeyCount, Rooted;
    PairHeights(a, k, cap, w, c, u, l, r, q, ex);
    LevelBelow(a.pages, a.tree, k, cap, ex);
    assert p in b.tree.heightOf;
    if HasChild(Joined(a.pages, l, r, q, c), p) {
      NotAChild(a, k, l, r, q, c, p);
    }
  }

  lemma MergedLevels(a: State, b: State, d: State, k: nat, cap: nat, w: nat, c: nat, u: nat, l: nat, r: nat, q: nat, ex: nat)
    requires PairMerged(a, b, d, k, cap, w, c, u, l, r, q, ex)
    ensures Pairing(a, k, cap, w, c, u, l, r, q, ex) && c < |SlotsOf(a.pages, q)| && ChildPages(a, k, l, r, q, c)
    ensures k + 1 < |a.tree.levels| && u + 1 < |a.tree.levels[k + 1]| && k + 1 < |d.tree.levels|
    ensures d.tree.levels[k + 1] == RemoveAt(a.tree.levels[k + 1], u + 1) && d.tree.levels[k] == a.tree.levels[k]
  {
    hide Pairing, Placed, Rooted, Typed, SortedLevel, LevelOK;
    assert a.tree.levels[k] == a.tree.levels[..k + 1][k] && d.tree.levels[k] == d.tree.levels[..k + 1][k];
  }

  lemma MergedLinked(a: State, b: State, d: State, k: nat, cap: nat, w: nat, c: nat, u: nat, l: nat, r: nat, q: nat, ex: nat)
    requires PairMerged(a, b, d, k, cap, w, c, u, l, r, q, ex)
    ensures k + 1 < |d.tree.levels| && d.tree.levels[k + 1] == RemoveAt(a.tree.levels[k + 1], u + 1) && d.tree.levels[k] == a.tree.levels[k]
    ensures Linked(d.pages, d.tree.levels[k + 1], d.tree.levels[k])
  {
    hide PairMerged, Above, Siblings, ChildPages, Placed, Linked, NoDup, SortedLevel, Join, HasChild, KeyCount, Filled, Typed, Rooted, Pairing;
    MergedLevels(a, b, d, k, cap, w, c, u, l, r, q, ex);
    PairHeights(a, k, cap, w, c, u, l, r, q, ex);
    LevelBelow(a.pages, a.tree, k, cap, ex);
    var up, down := a.tree.levels[k + 1], a.tree.levels[k];
    var x := Joined(a.pages, l, r, q, c);
    SlotsNonEmpty(a.pages, a.tree, k + 1, cap, ex);
    OtherNodes(a.tree, k + 1, u, up);
    forall j | 0 <= j < |up| && j != u && j != u + 1
      ensures SlotsOf(d.pages, up[j].child) == SlotsOf(a.pages, up[j].child)
    {
      MergedNode(a, b, d, k, cap, w, c, u, l, r, q, ex, up[j].child);
    }
    MergedNode(a, b, d, k, cap, w, c, u, l, r, q, ex, l);
    forall e | 0 <= e < |x|
      ensures ParentOf(d.pages, x[e].child) == l
    {
      assert HasChild(x, x[e].child) by { ChildHeld(x, e); }
      NotAChild(a, k, l, r, q, c, x[e].child);
      MergedChild(a, b, d, k, cap, w, c, u, l, r, q, ex, x[e].child);
    }
    forall i | 0 <= i < |down| && !HasChild(x, down[i].child)
      ensures ParentOf(d.pages, down[i].child) == ParentOf(a.pages, down[i].child)
    {
      LevelHeight(a.tree, k, i);
      MergedChild(a, b, d, k, cap, w, c, u, l, r, q, ex, down[i].child);
    }
    MergeLinked(a.pages, d.pages, up, down, u, x);
  }

  lemma ChildHeld(x: seq<Slot>, e: nat)
    requires e < |x|
    ensures HasChild(x, x[e].child)
  {
  }

  lemma MergedFilled(a: State, b: State, d: State, k: nat, cap: nat, w: nat, c: nat, u: nat, l: nat, r: nat, q: nat, ex: nat)
    requires PairMerged(a, b, d, k, cap, w, c, u, l, r, q, ex)
    ensures Filled(d.pages, d.tree, k + 1, cap, 0)
  {
    hide Above, Siblings, ChildPages, Placed, Linked, NoDup, SortedLevel, Join, HasChild, Filled, Typed, Rooted, Progress, Movable, TakenOver;
    PairHeights(a, k, cap, w, c, u, l, r, q, ex);
    PairMovable(a, k, cap, w, c, u, l, r, q, ex);
    LevelBelow(a.pages, a.tree, k, cap, ex);
    MergedLinked(a, b, d, k, cap, w, c, u, l, r, q, ex);
    var level, level' := a.tree.levels[k + 1], d.tree.levels[k + 1];
    OtherNodes(a.tree, k + 1, u, level);
    forall j | 0 <= j < |level'|
      ensures var p := level'[j].child;
              && p in d.pages && d.pages[p].InternalPage? && p != 0 && p != r && Holds(level, p)
              && d.pages[p].childCategory == (if k == 0 then Leaf else Internal)
              && SlotsOf(d.pages, p) == (if p == l then Joined(a.pages, l, r, q, c) else SlotsOf(a.pages, p))
    {
      var e := if j <= u then j else j + 1;
      assert level'[j] == level[e];
      if e != u {
        assert level[e].child != level[u + 1].child;
      }
      MergedNode(a, b, d, k, cap, w, c, u, l, r, q, ex, level'[j].child);
    }
    FilledPair(a.pages, d.pages, a.tree, d.tree, level, level', k + 1, cap, ex, l, r);
  }

  lemma MergedAbove(a: State, b: State, d: State, k: nat, cap: nat, w: nat, c: nat, u: nat, l: nat, r: nat, q: nat, ex: nat)
    requires PairMerged(a, b, d, k, cap, w, c, u, l, r, q, ex)
    ensures Above(d.pages, d.tree, k + 1, cap, 0)
  {
    hide Siblings, ChildPages, Placed, SortedLevel, LevelOK, Join, HasChild, Rooted, Pairing;
    var x := Joined(a.pages, l, r, q, c);
    PairHeights(a, k, cap, w, c, u, l, r, q, ex);
    forall p | HasChild(x, p)
      ensures p in a.tree.heightOf && a.tree.heightOf[p] == k && p != r
    {
      NotAChild(a, k, l, r, q, c, p);
    }
    assert AboveSame(b.pages, d.pages, b.tree, k + 1);
    AboveFrame(b.pages, d.pages, b.tree, k + 1, cap, 0);
  }

  lemma MergedProgress(a: State, b: State, d: State, k: nat, cap: nat, w: nat, c: nat, u: nat, l: nat, r: nat, q: nat, ex: nat)
    requires PairMerged(a, b, d, k, cap, w, c, u, l, r, q, ex)
    ensures Progress(a, d, k, 0)
  {
    hide Siblings, ChildPages, Placed, SortedLevel, LevelOK, Join, HasChild, Rooted, Above, Pairing;
    var x := Joined(a.pages, l, r, q, c);
    PairHeights(a, k, cap, w, c, u, l, r, q, ex);
    PairUse(a, k, cap, w, c, u, l, r, q, ex);
    forall p | HasChild(x, p)
      ensures p in a.tree.heightOf && a.tree.heightOf[p] == k
    {
      NotAChild(a, k, l, r, q, c, p);
    }
    assert a.tree.levels[..k] == a.tree.levels[..k + 1][..k];
    assert d.tree.levels[..k] == d.tree.levels[..k + 1][..k];
    forall p | p in a.inUse && p !in a.tree.heightOf
      ensures p in a.pages && p in d.pages && d.pages[p] == a.pages[p]
    {
      assert Loose(a, p);
      assert Loose(b, p);
    }
  }

  lemma PairUse(a: State, k: nat, cap: nat, w: nat, c: nat, u: nat, l: nat, r: nat, q: nat, ex: nat)
    requires Pairing(a, k, cap, w, c, u, l, r, q, ex)
    ensures a.tree.heightOf.Keys <= a.inUse && 0 !in a.inUse
    ensures forall p :: p in a.inUse ==> p in a.pages
    ensures forall p :: p in a.tree.heightOf ==> IsTreePage(a.pages[p])
  {
  }

  lemma MergedRepaired(a: State, b: State, d: State, k: nat, cap: nat, w: nat, c: nat, u: nat, l: nat, r: nat, q: nat, ex: nat)
    requires PairMerged(a, b, d, k, cap, w, c, u, l, r, q, ex)
    ensures k < |a.tree.levels| && Repaired(a, d, k, cap)
  {
    hide Siblings, ChildPages, Placed, Linked, NoDup, SortedLevel, Join, KeyCount, Filled, HasChild, Typed, Rooted, Progress, Above, TakenOver;
    LevelBelow(a.pages, a.tree, k, cap, ex);
    MergedLinked(a, b, d, k, cap, w, c, u, l, r, q, ex);
    MergedFilled(a, b, d, k, cap, w, c, u, l, r, q, ex);
    MergedProgress(a, b, d, k, cap, w, c, u, l, r, q, ex);
    MergedAbove(a, b, d, k, cap, w, c, u, l, r, q, ex);
    AboveDown(d.pages, d.tree, k, cap);
  }

  // ------------------------------------------------- a page with too few keys

  /** Page p, node u of level k + 1, lost a key and has too few, unless it is the root. */
  ghost predicate Lacking(a: State, k: nat, cap: nat, u: nat, p: nat) {
    && Above(a.pages, a.tree, k, cap, p) && cap >= 5
    && a.tree.heightOf.Keys <= a.inUse && 0 !in a.inUse
    && (forall x :: x in a.inUse ==> x in a.pages)
    && k + 1 < |a.tree.levels| && u < |a.tree.levels[k + 1]| && a.tree.levels[k + 1][u].child == p
    && |SlotsOf(a.pages, p)| - 1 < cap / 2
  }

  lemma LackingFacts(a: State, k: nat, cap: nat, u: nat, p: nat)
    requires Lacking(a, k, cap, u, p)
    ensures p in a.tree.heightOf && a.tree.heightOf[p] == k + 1 && p in a.inUse && p in a.pages && a.pages[p].InternalPage?
    ensures k + 1 < |a.tree.levels| && u < |a.tree.levels[k + 1]| && p == a.tree.levels[k + 1][u].child
    ensures Above(a.pages, a.tree, k + 1, cap, 0) && cap >= 5
    ensures KeyCount(SlotsOf(a.pages, p), cap, k + 2 == |a.tree.levels|, true)
    ensures |SlotsOf(a.pages, p)| - 1 < cap / 2
    ensures a.pages[p].childCategory == (if k == 0 then Leaf else Internal)
  {
    hide Offset, Above, Linked, Filled, Placed, Typed, Rooted, SortedLevel, NoDup, Expand;
    LevelBelow(a.pages, a.tree, k, cap, p);
    LevelHeight(a.tree, k + 1, u);
    AboveUpEx(a.pages, a.tree, k, cap, p);
    NodeKeys(a.pages, a.tree, k + 1, cap, p, u);
  }

  /** The root may have any number of keys from 1 on. */
  lemma LackingRoot(a: State, k: nat, cap: nat, u: nat, p: nat)
    requires Lacking(a, k, cap, u, p) && ParentOf(a.pages, p) == 0
    ensures k < |a.tree.levels| && Repaired(a, a, k, cap)
  {
    hide Above, Linked, Filled, Placed, SortedLevel;
    LackingFacts(a, k, cap, u, p);
    ParentlessIsTop(a.pages, a.tree, k + 1, cap, 0, u);
    AboveEnough(a.pages, a.tree, k, cap, p);
    AllTreePagesAbove(a.pages, a.tree, k, cap, 0);
    ProgressRefl(a, k);
  }

  /** The pairs page p can borrow in or merge in. */
  lemma LackingPairs(a: State, k: nat, cap: nat, u: nat, p: nat) returns (w: nat, c: nat)
    requires Lacking(a, k, cap, u, p) && ParentOf(a.pages, p) != 0
    ensures var q := ParentOf(a.pages, p);
            var slots := SlotsOf(a.pages, q);
            && q in a.inUse && q in a.pages && a.pages[q].InternalPage?
            && c < |slots| && 2 <= |slots| && slots[c].child == p && DistinctChildren(slots)
            && (c > 0 ==> u > 0 && Pairing(a, k, cap, w, c, u - 1, slots[c - 1].child, p, q, p))
            && (c + 1 < |slots| ==> Pairing(a, k, cap, w, c + 1, u, p, slots[c + 1].child, q, p))
  {
    hide Above, Siblings, Linked, Filled, Placed, SortedLevel, DistinctChildren, KeyCount;
    LackingFacts(a, k, cap, u, p);
    w, c := FindSiblings(a.pages, a.tree, k + 1, cap, u, p);
  }

  /** Once half of the surplus has moved, both pages have enough keys. */
  lemma SharedCounts(x: seq<Slot>, cap: nat, few: nat, many: nat, n: nat, first: int)
    requires few + many == |x| && cap >= 5
    requires few - 1 >= MinKeys(cap) - 1 && few - 1 < cap / 2 && cap / 2 < many - 1 && many <= cap + 1
    requires n == few + (many - few) / 2 || n == many - (many - few) / 2
    ensures 0 < n < |x| && many - few >= 2
    ensures KeyCount(x[..n], cap, false, false) && KeyCount(Tail(x, n, first), cap, false, false)
  {
  }

  // ------------------------------------------------- taking an entry off its parent

  /** Page r stays loose while the levels above are repaired. */
  lemma DetachedRepaired(a: State, a1: State, b: State, k: nat, cap: nat, x: nat, r: nat)
    requires k < |a.tree.levels| && x < |a.tree.levels[k]| && k < |a1.tree.levels|
    requires Progress(a, a1, k, r) && Loose(a1, r) && a1.tree.levels[k] == RemoveAt(a.tree.levels[k], x)
    requires Repaired(a1, b, k, cap)
    requires r in a.inUse && a.tree.heightOf.Keys <= a.inUse && 0 !in a1.inUse && 0 !in b.inUse
    ensures Detached(a, b, k, cap, x, r)
  {
    hide Above;
    assert Loose(b, r);
    ProgressWith(a1, b, k, r);
    ProgressTrans(a, a1, b, k, r);
  }

  lemma ProgressWith(a: State, b: State, k: nat, r: nat)
    requires Progress(a, b, k, 0) && Loose(a, r) && r in a.pages && IsTreePage(a.pages[r]) && r != 0
    requires a.tree.heightOf.Keys <= a.inUse && 0 !in a.inUse && 0 !in b.inUse
    ensures Progress(a, b, k, r)
  {
  }

  /** The pages of the two siblings once r is off the parent. */
  lemma DetachedPair(a: State, b: State, k: nat, cap: nat, w: nat, c: nat, u: nat, l: nat, r: nat, q: nat, ex: nat)
    requires Pairing(a, k, cap, w, c, u, l, r, q, ex)
    requires k + 1 < |a.tree.levels| && u + 1 < |a.tree.levels[k + 1]|
    requires Detached(a, b, k + 1, cap, u + 1, r)
    ensures l in b.inUse && r in b.inUse && l in b.pages && r in b.pages && l != r
    ensures l in a.pages && r in a.pages && a.pages[l].InternalPage? && a.pages[r].InternalPage?
    ensures SameButParent(a.pages[l], b.pages[l]) && SameButParent(a.pages[r], b.pages[r])
    ensures forall p :: ChildPage(a, k, l, r, q, p, l) || ChildPage(a, k, l, r, q, p, r) ==>
              p in b.inUse && p in b.pages && b.pages[p] == a.pages[p]
  {
    hide Above, Siblings, Placed;
    PairHeights(a, k, cap, w, c, u, l, r, q, ex);
  }

  /** r is in use and outside the tree; it can be freed. */
  lemma DetachingPair(a: State, k: nat, cap: nat, w: nat, c: nat, u: nat, l: nat, r: nat, q: nat, ex: nat)
    requires Pairing(a, k, cap, w, c, u, l, r, q, ex)
    ensures Detaching(a, k + 1, cap, w, c, u, l, r, q)
  {
    hide Above, Siblings, Placed;
    PairHeights(a, k, cap, w, c, u, l, r, q, ex);
  }

  /** The slots of r joined those of l, and their children were updated; then r was freed. */
  lemma TakenOverNow(a: State, b: State, s1: Store, s2: Store, d: State, k: nat, l: nat, r: nat, q: nat, c: nat)
    requires c < |SlotsOf(a.pages, q)| && ChildPages(a, k, l, r, q, c)
    requires l in b.inUse && l in b.pages && r in b.pages && l != r && 0 !in b.inUse
    requires forall p :: p in b.inUse ==> p in b.pages
    requires b.pages[l].InternalPage? && b.pages[r].InternalPage? && 0 in b.pages && b.pages[0].RootPtrPage?
    requires r in s1 && 0 !in a.inUse
    requires var x := Joined(a.pages, l, r, q, c);
             && PairChanged(b.pages, s1, l, b.pages[l].(slots := x), r, s1[r])
             && Reparented(s1, s2, l, x)
    requires d.tree == b.tree && d.inUse == b.inUse - {r}
    requires forall p :: p in d.inUse ==> p in s2 && p in d.pages && d.pages[p] == s2[p]
    requires 0 in d.pages && 0 in s2 && s2[0].RootPtrPage? && d.pages[0].RootPtrPage?
    requires d.pages[0] == s2[0].(header := d.pages[0].header)
    ensures TakenOver(b, d, l, r, Joined(a.pages, l, r, q, c))
  {
    hide Join, HasChild, ChildPages;
    var x := Joined(a.pages, l, r, q, c);
    forall p | HasChild(x, p)
      ensures p != l && p != r && p != 0
    {
      NotAChild(a, k, l, r, q, c, p);
    }
  }

  // ------------------------------------------------- the steps of the methods

  lemma OnlyChild(slots: seq<Slot>, c: nat, p: nat)
    requires DistinctChildren(slots) && c < |slots| && slots[c].child == p
    ensures HasChild(slots, p) && forall d :: 0 <= d < |slots| && slots[d].child == p ==> d == c
  {
  }

  lemma DetachedJoinable(a: State, b: State, cap: nat, l: nat, r: nat, q: nat, c: nat, category: PageType)
    requires Movable(a.pages, cap, l, r, q, c, category)
    requires l in b.pages && r in b.pages
    requires SameButParent(a.pages[l], b.pages[l]) && SameButParent(a.pages[r], b.pages[r])
    requires |SlotsOf(a.pages, l)| + |SlotsOf(a.pages, r)| <= cap + 1
    ensures Joinable(b.pages, cap, l, r, SlotsOf(a.pages, q)[c].key, category)
    ensures SlotsOf(b.pages, r) == SlotsOf(a.pages, r)
    ensures Join(SlotsOf(b.pages, l), SlotsOf(a.pages, q)[c].key, SlotsOf(b.pages, r)) == Joined(a.pages, l, r, q, c)
    ensures b.pages[l].InternalPage? && b.pages[r].InternalPage?
  {
    hide DistinctChildren, SortedSlots;
  }

  lemma JoinedPages(a: State, b: State, s1: Store, k: nat, cap: nat, l: nat, r: nat, q: nat, c: nat, category: PageType)
    requires c < |SlotsOf(a.pages, q)| && ChildPages(a, k, l, r, q, c)
    requires Joinable(b.pages, cap, l, r, SlotsOf(a.pages, q)[c].key, category)
    requires PartJoined(b.pages, s1, l, r, SlotsOf(a.pages, q)[c].key, |SlotsOf(b.pages, r)|)
    requires Join(SlotsOf(b.pages, l), SlotsOf(a.pages, q)[c].key, SlotsOf(b.pages, r)) == Joined(a.pages, l, r, q, c)
    requires forall p :: ChildPage(a, k, l, r, q, p, l) || ChildPage(a, k, l, r, q, p, r) ==>
               p in b.inUse && p in b.pages && b.pages[p] == a.pages[p]
    ensures l in b.pages && r in b.pages && r in s1 && l in s1 && s1[l].InternalPage? && b.pages[l].InternalPage?
    ensures s1[l].slots == Joined(a.pages, l, r, q, c) && 2 <= |s1[l].slots|
    ensures PairChanged(b.pages, s1, l, b.pages[l].(slots := Joined(a.pages, l, r, q, c)), r, s1[r])
    ensures forall d :: 0 <= d < |s1[l].slots| ==> var p := s1[l].slots[d].child;
              p != l && p in b.inUse && p in s1 && IsTreePage(s1[p])
  {
    hide Join, DistinctChildren, SortedSlots;
    var x := Joined(a.pages, l, r, q, c);
    assert x[..|x|] == x;
    forall d | 0 <= d < |x|
      ensures var p := x[d].child; p != l && p in b.inUse && p in s1 && IsTreePage(s1[p])
    {
      assert ChildPage(a, k, l, r, q, x[d].child, if d < |SlotsOf(a.pages, l)| then l else r);
    }
  }

  lemma MergedNow(a: State, b: State, d: State, k: nat, cap: nat, w: nat, c: nat, u: nat, l: nat, r: nat, q: nat, ex: nat)
    requires Pairing(a, k, cap, w, c, u, l, r, q, ex)
    requires c < |SlotsOf(a.pages, q)| && ChildPages(a, k, l, r, q, c)
    requires k + 1 < |a.tree.levels| && u + 1 < |a.tree.levels[k + 1]|
    requires Detached(a, b, k + 1, cap, u + 1, r) && 0 !in b.inUse
    requires |Joined(a.pages, l, r, q, c)| <= cap + 1
    requires TakenOver(b, d, l, r, Joined(a.pages, l, r, q, c))
    ensures Repaired(a, d, k, cap)
  {
    hide Pairing, Detached, TakenOver, Repaired, ChildPages;
    MergedRepaired(a, b, d, k, cap, w, c, u, l, r, q, ex);
  }

  /** The parent has too few keys once entry c is off. */
  lemma LackingNow(a: State, b: State, k: nat, cap: nat, w: nat, c: nat, u: nat, l: nat, r: nat, q: nat)
    requires Detaching(a, k, cap, w, c, u, l, r, q) && k < |a.tree.levels| && u + 1 < |a.tree.levels[k]|
    requires b.inUse == a.inUse && b.tree == RemoveNode(a.tree, k, u + 1) && b.pages.Keys == a.pages.Keys
    requires Above(b.pages, b.tree, k, cap, q) && |SlotsOf(b.pages, q)| - 1 < cap / 2
    ensures Lacking(b, k, cap, w, q)
  {
    hide Above, Offset;
  }

  /** The parent still has enough keys. */
  lemma DetachedEnough(a: State, b: State, k: nat, cap: nat, w: nat, c: nat, u: nat, l: nat, r: nat, q: nat)
    requires Detaching(a, k, cap, w, c, u, l, r, q) && k < |a.tree.levels| && u + 1 < |a.tree.levels[k]|
    requires Above(b.pages, b.tree, k, cap, q) && Progress(a, b, k, r) && Loose(b, r)
    requires b.tree == RemoveNode(a.tree, k, u + 1)
    requires cap / 2 <= |SlotsOf(b.pages, q)| - 1 <= cap
    ensures Detached(a, b, k, cap, u + 1, r)
  {
    hide Above, Progress, Loose, Siblings;
    SiblingPages(a.pages, a.tree, k, cap, w, c, u, l, r, q);
    SiblingNode(a.pages, a.tree, k, w, c, u, l, r, q);
    AboveEnough(b.pages, b.tree, k, cap, q);
  }

  /** The root lost its last entry. */
  lemma DroppedNow(a: State, d: State, k: nat, cap: nat, w: nat, c: nat, u: nat, l: nat, r: nat, q: nat)
    requires Detaching(a, k, cap, w, c, u, l, r, q) && |SlotsOf(a.pages, q)| == 2
    requires k < |a.tree.levels| && u + 1 < |a.tree.levels[k]|
    requires 0 in d.pages && d.pages[0].RootPtrPage? && d.pages[0].root == l
    requires d.pages[0].rootCategory == if k == 0 then Leaf else Internal
    requires d.inUse == a.inUse - {q} && d.tree == PopRoot(a.tree, k, l, r, q)
    requires l in a.pages && l in d.pages && d.pages[l] == WithParent(a.pages[l], 0)
    requires forall p :: p in d.inUse && p != l ==> p in d.pages && d.pages[p] == a.pages[p]
    ensures Detached(a, d, k, cap, u + 1, r)
  {
    hide Above, Siblings, Detached;
    CollapseDone(a, d, k, cap, w, c, u, l, r, q);
  }

  /** Half of the surplus was borrowed, in either direction. */
  lemma BorrowedRepaired(a: State, b: State, k: nat, cap: nat, w: nat, c: nat, u: nat, l: nat, r: nat, q: nat, ex: nat, n: nat)
    requires Pairing(a, k, cap, w, c, u, l, r, q, ex) && c < |SlotsOf(a.pages, q)|
    requires ChildPages(a, k, l, r, q, c) && Resliced(a.pages, b.pages, l, r, q, c, n)
    requires var few, many := if ex == l then l else r, if ex == l then r else l;
             var f, m := |SlotsOf(a.pages, few)|, |SlotsOf(a.pages, many)|;
             && f - 1 < cap / 2 && cap / 2 < m - 1 && f - 1 >= MinKeys(cap) - 1 && m <= cap + 1
             && n == (if ex == l then f + (m - f) / 2 else m - (m - f) / 2)
    requires k + 1 < |a.tree.levels| && u + 1 < |a.tree.levels[k + 1]| && n < |Joined(a.pages, l, r, q, c)|
    requires b.inUse == a.inUse && b.tree == RekeyNode(a.tree, k + 1, u + 1, Joined(a.pages, l, r, q, c)[n].key)
    ensures k < |a.tree.levels| && Repaired(a, b, k, cap)
  {
    hide Pairing, ChildPages, Resliced, Repaired, Join, Tail, KeyCount;
    ReslicedPages(a.pages, b.pages, l, r, q, c, n);
    var few, many := if ex == l then l else r, if ex == l then r else l;
    PairEx(a, k, cap, w, c, u, l, r, q, ex);
    SharedCounts(Joined(a.pages, l, r, q, c), cap, |SlotsOf(a.pages, few)|, |SlotsOf(a.pages, many)|, n, SlotsOf(a.pages, r)[0].key);
    ReslicedRepaired(a, b, k, cap, w, c, u, l, r, q, ex, n);
  }

  lemma PairEx(a: State, k: nat, cap: nat, w: nat, c: nat, u: nat, l: nat, r: nat, q: nat, ex: nat)
    requires Pairing(a, k, cap, w, c, u, l, r, q, ex)
    ensures (ex == l || ex == r) && cap >= 5
  {
  }
}
