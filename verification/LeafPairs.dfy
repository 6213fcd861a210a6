/** Moving tuples between two sibling leaves, merging the two, and taking a tuple out of a
    leaf. */
module LeafPairs {
  import opened Pages
  import opened Levels
  import opened Trees
  import opened Merging
  import opened Leaves
  import opened LegalTrees
  import opened Separators

  /** Pages l and r, leaves j and j + 1, are siblings under page q; the tree is legal but
      that leaf ex, one of the two, may have one tuple too few. */
  ghost predicate LeafPairing(a: State, leafCap: nat, nodeCap: nat, w: nat, c: nat, j: nat, l: nat, r: nat, q: nat, ex: nat) {
    && Legal(a, leafCap, nodeCap, ex) && nodeCap >= 5 && (ex == l || ex == r)
    && Siblings(a.pages, a.tree, 0, w, c, j, l, r, q)
  }

  lemma LeafPairPages(a: State, leafCap: nat, nodeCap: nat, w: nat, c: nat, j: nat, l: nat, r: nat, q: nat, ex: nat)
    requires LeafPairing(a, leafCap, nodeCap, w, c, j, l, r, q, ex)
    ensures a.tree.levels != [] && j + 1 < |a.tree.levels[0]|
    ensures a.tree.levels[0][j].child == l && a.tree.levels[0][j + 1].child == r
    ensures {l, r, q} <= a.inUse && {l, r, q} <= a.pages.Keys && l != r && l != q && r != q
    ensures l != 0 && r != 0 && q != 0 && 0 !in a.inUse
    ensures a.pages[l].LeafPage? && a.pages[r].LeafPage? && a.pages[q].InternalPage?
    ensures 0 < c < |a.pages[q].slots| && a.pages[q].slots[c - 1].child == l && a.pages[q].slots[c].child == r
    ensures a.pages[q].slots[c] == a.tree.levels[0][j + 1] && nodeCap >= 5
    ensures l in a.tree.heightOf && a.tree.heightOf[l] == 0 && r in a.tree.heightOf && a.tree.heightOf[r] == 0
    ensures q in a.tree.heightOf && a.tree.heightOf[q] == 1
    ensures Above(a.pages, a.tree, 0, nodeCap, 0) && LeavesOK(a.pages, a.tree.levels[0], leafCap, ex)
    ensures Siblings(a.pages, a.tree, 0, w, c, j, l, r, q) && NoDup(a.tree.levels[0]) && SortedLevel(a.tree.levels[0])
  {
    hide Offset, LeavesOK;
    SiblingPages(a.pages, a.tree, 0, nodeCap, w, c, j, l, r, q);
  }

  // ------------------------------------------------------------------ moving tuples

  /** The tuples of l and r were shared anew: those of l are at most key, those of r at
      least, and key is the separator in q. */
  ghost predicate Reshared(s: Store, s': Store, l: nat, r: nat, q: nat, c: nat, key: int) {
    && {l, r, q} <= s.Keys && s'.Keys == s.Keys && l != r && l != q && r != q
    && s[l].LeafPage? && s[r].LeafPage? && s[q].InternalPage? && 0 < c < |s[q].slots|
    && s'[l] == s[l].(tuples := TuplesOf(s', l)) && s'[r] == s[r].(tuples := TuplesOf(s', r))
    && s'[q] == s[q].(slots := s[q].slots[c := Slot(key, r)])
    && (forall p :: p in s && p != l && p != r && p != q ==> s'[p] == s[p])
    && SortedTuples(s'[l].tuples) && SortedTuples(s'[r].tuples)
    && multiset(s'[l].tuples) + multiset(s'[r].tuples) == multiset(s[l].tuples) + multiset(s[r].tuples)
    && AllAtMost(s'[l].tuples, key) && AllAtLeast(s'[r].tuples, key)
  }

  /** Bounds on the tuples of two pages hold when the tuples are shared anew. */
  lemma SharedBounds(l: seq<Tuple>, r: seq<Tuple>, l': seq<Tuple>, r': seq<Tuple>, key: int)
    requires multiset(l') + multiset(r') == multiset(l) + multiset(r)
    ensures AllAtLeast(l, key) && AllAtLeast(r, key) ==> AllAtLeast(l', key) && AllAtLeast(r', key)
    ensures AllAtMost(l, key) && AllAtMost(r, key) ==> AllAtMost(l', key) && AllAtMost(r', key)
  {
    BagBounds(l + r, l' + r', key);
    forall i | 0 <= i < |l'|
      ensures (l' + r')[i] == l'[i]
    {
    }
    forall i | 0 <= i < |r'|
      ensures (l' + r')[|l'| + i] == r'[i]
    {
    }
  }

  /** The tuples of a pair lie between the separators on its two sides. */
  lemma PairBounds(s: Store, leaves: Level, cap: nat, ex: nat, j: nat)
    requires LeavesOK(s, leaves, cap, ex) && SortedLevel(leaves) && j + 1 < |leaves|
    ensures var ts, us := TuplesOf(s, leaves[j].child), TuplesOf(s, leaves[j + 1].child);
            && SortedTuples(ts) && SortedTuples(us)
            && AllAtMost(ts, leaves[j + 1].key) && AllAtLeast(us, leaves[j + 1].key)
            && (j > 0 ==> AllAtLeast(ts, leaves[j].key) && AllAtLeast(us, leaves[j].key))
            && (j + 2 < |leaves| ==> AllAtMost(ts, leaves[j + 2].key) && AllAtMost(us, leaves[j + 2].key))
  {
    assert LeafOK(s, leaves, j, cap, ex) && LeafOK(s, leaves, j + 1, cap, ex);
  }

  /** What a leaf of the level is after tuples moved between leaves j and j + 1. */
  lemma ResharedLeaf(s: Store, s': Store, leaves: Level, leaves': Level, cap: nat, ex: nat, j: nat, l: nat, r: nat, q: nat, c: nat, key: int, i: nat)
    requires LeavesOK(s, leaves, cap, ex) && SortedLevel(leaves) && NoDup(leaves) && j + 1 < |leaves| && i < |leaves|
    requires l == leaves[j].child && r == leaves[j + 1].child && (ex == l || ex == r)
    requires Reshared(s, s', l, r, q, c, key) && leaves' == leaves[j + 1 := Slot(key, r)]
    requires MinTuples(cap) <= |TuplesOf(s', l)| <= cap && MinTuples(cap) <= |TuplesOf(s', r)| <= cap
    requires leaves[i].child != q
    ensures LeafOK(s', leaves', i, cap, 0)
  {
    assert LeafOK(s, leaves, i, cap, ex);
    PairBounds(s, leaves, cap, ex, j);
    var ts, us := TuplesOf(s, l), TuplesOf(s, r);
    if i == j && j > 0 {
      SharedBounds(ts, us, TuplesOf(s', l), TuplesOf(s', r), leaves[j].key);
    } else if i == j + 1 && j + 2 < |leaves| {
      SharedBounds(ts, us, TuplesOf(s', l), TuplesOf(s', r), leaves[j + 2].key);
    }
    hide SortedTuples, AllAtMost, AllAtLeast;
  }

  /** The contents around a pair of leaves. */
  lemma ContentsPair(s: Store, leaves: Level, j: nat)
    requires j + 1 < |leaves|
    ensures Contents(s, leaves) ==
            Contents(s, leaves[..j]) + (TuplesOf(s, leaves[j].child) + TuplesOf(s, leaves[j + 1].child)) + Contents(s, leaves[j + 2..])
  {
    hide Contents;
    SplitAround(leaves, j);
    ContentsThree(s, leaves[..j], [leaves[j], leaves[j + 1]], leaves[j + 2..]);
    assert [leaves[j], leaves[j + 1]] == [leaves[j]] + [leaves[j + 1]];
    ContentsAppend(s, [leaves[j]], [leaves[j + 1]]);
    ContentsSingle(s, leaves[j]);
    ContentsSingle(s, leaves[j + 1]);
  }

  lemma SideContents(s: Store, s': Store, leaves: Level, j: nat)
    requires NoDup(leaves) && j + 1 < |leaves|
    requires forall i :: 0 <= i < |leaves| && i != j && i != j + 1 ==> TuplesOf(s', leaves[i].child) == TuplesOf(s, leaves[i].child)
    ensures Contents(s', leaves[..j]) == Contents(s, leaves[..j])
    ensures Contents(s', leaves[j + 2..]) == Contents(s, leaves[j + 2..])
  {
    ContentsFrame(s, s', leaves[..j]);
    var b := leaves[j + 2..];
    forall i | 0 <= i < |b|
      ensures TuplesOf(s', b[i].child) == TuplesOf(s, b[i].child)
    {
      assert b[i] == leaves[j + 2 + i];
    }
    ContentsFrame(s, s', b);
  }

  lemma BagPair(a: seq<Tuple>, l: seq<Tuple>, r: seq<Tuple>, b: seq<Tuple>, l': seq<Tuple>, r': seq<Tuple>)
    requires multiset(l') + multiset(r') == multiset(l) + multiset(r)
    ensures multiset(a + (l' + r') + b) == multiset(a + (l + r) + b)
  {
    BagTwo(l, r);
    BagTwo(l', r');
    BagThree(a, l + r, b);
    BagThree(a, l' + r', b);
  }

  lemma ResharedContents(s: Store, s': Store, leaves: Level, leaves': Level, j: nat, l: nat, r: nat, q: nat, c: nat, key: int)
    requires NoDup(leaves) && j + 1 < |leaves| && l == leaves[j].child && r == leaves[j + 1].child
    requires Reshared(s, s', l, r, q, c, key) && leaves' == leaves[j + 1 := Slot(key, r)]
    requires forall i :: 0 <= i < |leaves| ==> leaves[i].child in s && leaves[i].child != q
    ensures multiset(Contents(s', leaves')) == multiset(Contents(s, leaves))
  {
    hide Contents, SortedTuples, AllAtMost, AllAtLeast;
    ContentsPair(s, leaves, j);
    ContentsPair(s', leaves', j);
    assert leaves'[..j] == leaves[..j] && leaves'[j + 2..] == leaves[j + 2..];
    forall i | 0 <= i < |leaves| && i != j && i != j + 1
      ensures TuplesOf(s', leaves[i].child) == TuplesOf(s, leaves[i].child)
    {
      assert leaves[i].child != l && leaves[i].child != r;
    }
    SideContents(s, s', leaves, j);
    BagPair(Contents(s, leaves[..j]), TuplesOf(s, l), TuplesOf(s, r), Contents(s, leaves[j + 2..]), TuplesOf(s', l), TuplesOf(s', r));
  }

  /** The new separator keeps the level sorted. */
  lemma RekeySorted(level: Level, j: nat, key: int, p: nat)
    requires SortedLevel(level) && j + 1 < |level|
    requires j > 0 ==> level[j].key <= key
    requires j + 2 < |level| ==> key <= level[j + 2].key
    ensures SortedLevel(level[j + 1 := Slot(key, p)])
  {
  }

  /** The key at the cut is one of the pair's. */
  lemma ResharedKey(s: Store, s': Store, leaves: Level, cap: nat, ex: nat, j: nat, l: nat, r: nat, q: nat, c: nat, key: int)
    requires LeavesOK(s, leaves, cap, ex) && SortedLevel(leaves) && j + 1 < |leaves|
    requires l == leaves[j].child && r == leaves[j + 1].child && Reshared(s, s', l, r, q, c, key)
    requires TuplesOf(s', l) != [] && TuplesOf(s', r) != []
    ensures j > 0 ==> leaves[j].key <= key
    ensures j + 2 < |leaves| ==> key <= leaves[j + 2].key
  {
    PairBounds(s, leaves, cap, ex, j);
    var ts, us := TuplesOf(s, l), TuplesOf(s, r);
    if j > 0 {
      SharedBounds(ts, us, TuplesOf(s', l), TuplesOf(s', r), leaves[j].key);
      assert leaves[j].key <= TuplesOf(s', l)[0].key <= key;
    }
    if j + 2 < |leaves| {
      SharedBounds(ts, us, TuplesOf(s', l), TuplesOf(s', r), leaves[j + 2].key);
      assert key <= TuplesOf(s', r)[0].key <= leaves[j + 2].key;
    }
  }

  /** A borrow keeps the separators strict exactly when the new one differs from those on
      the two sides of the pair. */
  lemma StrictAfterBorrow(s: Store, s': Store, leaves: Level, cap: nat, ex: nat, j: nat, l: nat, r: nat, q: nat, c: nat, key: int)
    requires LeavesOK(s, leaves, cap, ex) && SortedLevel(leaves) && j + 1 < |leaves| && StrictLevel(leaves)
    requires l == leaves[j].child && r == leaves[j + 1].child && Reshared(s, s', l, r, q, c, key)
    requires TuplesOf(s', l) != [] && TuplesOf(s', r) != []
    ensures StrictLevel(leaves[j + 1 := Slot(key, r)]) <==> !(Low(leaves, j) == Some(key) || Low(leaves, j + 2) == Some(key))
  {
    hide StrictLevel, SortedLevel, LeavesOK, Reshared;
    ResharedKey(s, s', leaves, cap, ex, j, l, r, q, c, key);
    StrictRekey(leaves, j, key, r);
  }

  /** Tuples were borrowed: the tree is legal and holds the same tuples. */
  lemma BorrowedLegal(a: State, b: State, leafCap: nat, nodeCap: nat, w: nat, c: nat, j: nat, l: nat, r: nat, q: nat, ex: nat, key: int)
    requires LeafPairing(a, leafCap, nodeCap, w, c, j, l, r, q, ex) && leafCap >= 2
    requires Reshared(a.pages, b.pages, l, r, q, c, key) && b.inUse == a.inUse
    requires a.tree.levels != [] && j + 1 < |a.tree.levels[0]| && b.tree == RekeyNode(a.tree, 0, j + 1, key)
    requires MinTuples(leafCap) <= |TuplesOf(b.pages, l)| <= leafCap
    requires MinTuples(leafCap) <= |TuplesOf(b.pages, r)| <= leafCap
    ensures Legal(b, leafCap, nodeCap, 0)
    ensures multiset(Contents(b.pages, b.tree.levels[0])) == multiset(Contents(a.pages, a.tree.levels[0]))
  {
    hide Above, LeavesOK, Contents, Siblings, NoDup, SortedLevel, SortedTuples, AllAtMost, AllAtLeast;
    LeafPairPages(a, leafCap, nodeCap, w, c, j, l, r, q, ex);
    var leaves, leaves' := a.tree.levels[0], b.tree.levels[0];
    TreeLeaves(a, leafCap, nodeCap, ex, q);
    ResharedKey(a.pages, b.pages, leaves, leafCap, ex, j, l, r, q, c, key);
    RekeySorted(leaves, j, key, r);
    ResharedAbove(a, b, nodeCap, w, c, j, l, r, q, key);
    ResharedContents(a.pages, b.pages, leaves, leaves', j, l, r, q, c, key);
    ResharedLeaves(a.pages, b.pages, leaves, leaves', leafCap, ex, j, l, r, q, c, key);
  }

  lemma ResharedLeaves(s: Store, s': Store, leaves: Level, leaves': Level, cap: nat, ex: nat, j: nat, l: nat, r: nat, q: nat, c: nat, key: int)
    requires LeavesOK(s, leaves, cap, ex) && SortedLevel(leaves) && NoDup(leaves) && j + 1 < |leaves|
    requires l == leaves[j].child && r == leaves[j + 1].child && (ex == l || ex == r)
    requires Reshared(s, s', l, r, q, c, key) && leaves' == leaves[j + 1 := Slot(key, r)]
    requires MinTuples(cap) <= |TuplesOf(s', l)| <= cap && MinTuples(cap) <= |TuplesOf(s', r)| <= cap
    requires forall i :: 0 <= i < |leaves| ==> leaves[i].child in s && leaves[i].child != q
    ensures LeavesOK(s', leaves', cap, 0)
  {
    forall i | 0 <= i < |leaves'|
      ensures LeafOK(s', leaves', i, cap, 0)
    {
      hide LeafOK, LeavesOK, Reshared, SortedLevel, NoDup;
      ResharedLeaf(s, s', leaves, leaves', cap, ex, j, l, r, q, c, key, i);
    }
  }

  lemma TreeLeaves(a: State, leafCap: nat, nodeCap: nat, ex: nat, q: nat)
    requires Legal(a, leafCap, nodeCap, ex) && q in a.tree.heightOf && a.tree.heightOf[q] == 1
    ensures forall i :: 0 <= i < |a.tree.levels[0]| ==>
              && a.tree.levels[0][i].child in a.pages && a.tree.levels[0][i].child in a.inUse
              && a.tree.levels[0][i].child != q
  {
    forall i | 0 <= i < |a.tree.levels[0]|
      ensures && a.tree.levels[0][i].child in a.pages && a.tree.levels[0][i].child in a.inUse
              && a.tree.levels[0][i].child != q
    {
      LevelHeight(a.tree, 0, i);
    }
  }

  lemma ResharedAbove(a: State, b: State, nodeCap: nat, w: nat, c: nat, j: nat, l: nat, r: nat, q: nat, key: int)
    requires Above(a.pages, a.tree, 0, nodeCap, 0) && Siblings(a.pages, a.tree, 0, w, c, j, l, r, q)
    requires Reshared(a.pages, b.pages, l, r, q, c, key)
    requires j + 1 < |a.tree.levels[0]| && b.tree == RekeyNode(a.tree, 0, j + 1, key)
    requires a.tree.levels[0][j + 1].child == r && SortedLevel(a.tree.levels[0][j + 1 := Slot(key, r)])
    ensures Above(b.pages, b.tree, 0, nodeCap, 0)
  {
    hide Above, SortedLevel, Siblings, Reshared;
    SiblingPages(a.pages, a.tree, 0, nodeCap, w, c, j, l, r, q);
    SiblingLevels(a.pages, a.tree, 0, w, c, j, l, r, q);
    LevelBelow(a.pages, a.tree, 0, nodeCap, 0);
    var s1 := a.pages[q := a.pages[q].(slots := SlotsOf(a.pages, q)[c := Slot(key, r)])];
    ResharedSame(a, s1, b, l, r, q, c, key);
    RekeyedBelow(a.pages, s1, b.pages, a.tree, b.tree, 0, nodeCap, w, c, j, l, r, q, key);
  }

  lemma SiblingLevels(s: Store, t: Tree, i: nat, w: nat, c: nat, u: nat, l: nat, r: nat, q: nat)
    requires Siblings(s, t, i, w, c, u, l, r, q)
    ensures i + 1 < |t.levels| && 0 < c < |SlotsOf(s, q)|
  {
  }

  lemma ResharedSame(a: State, s1: Store, b: State, l: nat, r: nat, q: nat, c: nat, key: int)
    requires Reshared(a.pages, b.pages, l, r, q, c, key) && Typed(a.pages, a.tree) && Rooted(a.pages, a.tree)
    requires l in a.tree.heightOf && r in a.tree.heightOf && q in a.tree.heightOf
    requires a.tree.heightOf[l] == 0 && a.tree.heightOf[r] == 0 && a.tree.heightOf[q] == 1
    requires s1 == a.pages[q := a.pages[q].(slots := SlotsOf(a.pages, q)[c := Slot(key, r)])]
    ensures AboveSame(s1, b.pages, a.tree, 0)
  {
    hide SortedTuples, AllAtMost, AllAtLeast;
  }

  // ------------------------------------------------------------------ merging leaves

  /** The tuples of r joined those of l, and r was taken out of the sibling chain. */
  ghost predicate LeavesJoined(s: Store, s': Store, l: nat, r: nat) {
    && {l, r} <= s.Keys && s'.Keys == s.Keys && l != r && s[l].LeafPage? && s[r].LeafPage?
    && s'[l] == s[l].(tuples := TuplesOf(s', l), right := s[r].right)
    && SortedTuples(s'[l].tuples) && multiset(s'[l].tuples) == multiset(s[l].tuples) + multiset(s[r].tuples)
    && s'[l].tuples == PutAll(s[l].tuples, s[r].tuples)
    && s'[r].LeafPage? && s'[r].parent == s[r].parent
    && var next := s[r].right;
       && (next != 0 ==> next in s && next != l && next != r && s[next].LeafPage? && s'[next] == s[next].(left := l))
       && forall p :: p in s && p != l && p != r && (p != next || p == 0) ==> s'[p] == s[p]
  }

  /** The leaf part of LeavesJoined, which no later step undoes. */
  ghost predicate LeavesJoinedIn(s: Store, s': Store, leaves: Level, j: nat)
    requires j + 1 < |leaves|
  {
    var l, r := leaves[j].child, leaves[j + 1].child;
    && l in s && r in s && l in s' && s[l].LeafPage? && s[r].LeafPage? && s'[l].LeafPage?
    && s'[l].left == s[l].left && s'[l].right == s[r].right
    && SortedTuples(s'[l].tuples) && multiset(s'[l].tuples) == multiset(s[l].tuples) + multiset(s[r].tuples)
    && (j + 2 < |leaves| ==>
          var n := leaves[j + 2].child;
          && n in s && s[n].LeafPage? && n in s' && s'[n].LeafPage?
          && s'[n].left == l && s'[n].right == s[n].right && s'[n].tuples == s[n].tuples)
    && (forall i :: 0 <= i < |leaves| && i != j && i != j + 1 && i != j + 2 ==> LeafSame(s, s', leaves[i].child))
  }

  lemma JoinedInPlace(a: State, s': Store, leafCap: nat, nodeCap: nat, j: nat, l: nat, r: nat, ex: nat)
    requires Legal(a, leafCap, nodeCap, ex) && j + 1 < |a.tree.levels[0]|
    requires l == a.tree.levels[0][j].child && r == a.tree.levels[0][j + 1].child
    requires LeavesJoined(a.pages, s', l, r)
    ensures LeavesJoinedIn(a.pages, s', a.tree.levels[0], j)
  {
    LeafPlace(a, leafCap, nodeCap, ex, j + 1);
    hide Legal, SortedTuples;
    var leaves := a.tree.levels[0];
    forall i | 0 <= i < |leaves| && i != j && i != j + 1 && i != j + 2
      ensures LeafSame(a.pages, s', leaves[i].child)
    {
      assert leaves[i].child != l && leaves[i].child != r;
      assert j + 2 < |leaves| ==> leaves[i].child != leaves[j + 2].child;
    }
  }

  lemma JoinedOrderedLeaf(s: Store, s': Store, leaves: Level, cap: nat, ex: nat, j: nat, i: nat)
    requires LeavesOK(s, leaves, cap, ex) && SortedLevel(leaves) && j + 1 < |leaves| && i + 1 < |leaves|
    requires LeavesJoinedIn(s, s', leaves, j)
    ensures LeafOrdered(s', RemoveAt(leaves, j + 1), i)
  {
    var leaves' := RemoveAt(leaves, j + 1);
    if i == j {
      PairBounds(s, leaves, cap, ex, j);
      var ts, us, vs := TuplesOf(s, leaves[j].child), TuplesOf(s, leaves[j + 1].child), s'[leaves[j].child].tuples;
      assert multiset(vs + []) == multiset(ts + us) by { BagTwo(vs, []); BagTwo(ts, us); }
      if j > 0 {
        SharedBounds(ts, us, vs, [], leaves[j].key);
      }
      if j + 2 < |leaves| {
        SharedBounds(ts, us, vs, [], leaves[j + 2].key);
      }
    } else {
      var y := if i < j + 1 then i else i + 1;
      assert leaves'[i] == leaves[y];
      assert LeafOK(s, leaves, y, cap, ex);
      assert TuplesOf(s', leaves[y].child) == TuplesOf(s, leaves[y].child);
    }
  }

  lemma JoinedLinkedLeaf(s: Store, s': Store, leaves: Level, cap: nat, ex: nat, j: nat, i: nat)
    requires LeavesOK(s, leaves, cap, ex) && j + 1 < |leaves| && i + 1 < |leaves|
    requires LeavesJoinedIn(s, s', leaves, j)
    ensures LeafLinked(s', RemoveAt(leaves, j + 1), i)
  {
    hide LeafOrdered, LeafSized, SortedTuples;
    var leaves' := RemoveAt(leaves, j + 1);
    assert LeafOK(s, leaves, j, cap, ex) && LeafOK(s, leaves, j + 1, cap, ex);
    if i != j {
      var y := if i < j + 1 then i else i + 1;
      assert leaves'[i] == leaves[y];
      assert LeafOK(s, leaves, y, cap, ex);
    }
  }

  lemma JoinedSizedLeaf(s: Store, s': Store, leaves: Level, cap: nat, ex: nat, j: nat, i: nat)
    requires LeavesOK(s, leaves, cap, ex) && NoDup(leaves) && j + 1 < |leaves| && i + 1 < |leaves|
    requires LeavesJoinedIn(s, s', leaves, j) && (ex == leaves[j].child || ex == leaves[j + 1].child)
    requires |TuplesOf(s, leaves[j].child)| + |TuplesOf(s, leaves[j + 1].child)| <= cap && cap >= 2
    ensures LeafSized(s', RemoveAt(leaves, j + 1), i, cap, 0)
  {
    hide LeafOrdered, LeafLinked, SortedTuples;
    var leaves' := RemoveAt(leaves, j + 1);
    var y := if i < j + 1 then i else i + 1;
    assert leaves'[i] == leaves[y];
    assert LeafOK(s, leaves, y, cap, ex) && LeafOK(s, leaves, j, cap, ex) && LeafOK(s, leaves, j + 1, cap, ex);
    if i == j {
      MovedCount(s'[leaves[j].child].tuples, s[leaves[j].child].tuples, s[leaves[j + 1].child].tuples);
    } else {
      assert TuplesOf(s', leaves[y].child) == TuplesOf(s, leaves[y].child);
      assert leaves[y].child != leaves[j].child && leaves[y].child != leaves[j + 1].child;
    }
  }

  lemma JoinedLeavesOK(s: Store, s': Store, leaves: Level, cap: nat, ex: nat, j: nat)
    requires LeavesOK(s, leaves, cap, ex) && SortedLevel(leaves) && NoDup(leaves) && j + 1 < |leaves|
    requires LeavesJoinedIn(s, s', leaves, j) && (ex == leaves[j].child || ex == leaves[j + 1].child)
    requires |TuplesOf(s, leaves[j].child)| + |TuplesOf(s, leaves[j + 1].child)| <= cap && cap >= 2
    ensures LeavesOK(s', RemoveAt(leaves, j + 1), cap, 0)
  {
    var leaves' := RemoveAt(leaves, j + 1);
    forall i | 0 <= i < |leaves'|
      ensures LeafOK(s', leaves', i, cap, 0)
    {
      hide LeavesOK, LeavesJoinedIn, LeafOrdered, LeafLinked, LeafSized, SortedLevel, NoDup;
      JoinedOrderedLeaf(s, s', leaves, cap, ex, j, i);
      JoinedLinkedLeaf(s, s', leaves, cap, ex, j, i);
      JoinedSizedLeaf(s, s', leaves, cap, ex, j, i);
    }
  }

  lemma JoinedContents(s: Store, s': Store, leaves: Level, j: nat)
    requires NoDup(leaves) && j + 1 < |leaves| && LeavesJoinedIn(s, s', leaves, j)
    ensures multiset(Contents(s', RemoveAt(leaves, j + 1))) == multiset(Contents(s, leaves))
  {
    hide Contents, SortedTuples;
    ContentsPair(s, leaves, j);
    assert RemoveAt(leaves, j + 1) == leaves[..j] + [leaves[j]] + leaves[j + 2..];
    ContentsThree(s', leaves[..j], [leaves[j]], leaves[j + 2..]);
    ContentsSingle(s', leaves[j]);
    forall i | 0 <= i < |leaves| && i != j && i != j + 1
      ensures TuplesOf(s', leaves[i].child) == TuplesOf(s, leaves[i].child)
    {
      assert i != j + 2 ==> LeafSame(s, s', leaves[i].child);
    }
    SideContents(s, s', leaves, j);
    var ts, us, vs := TuplesOf(s, leaves[j].child), TuplesOf(s, leaves[j + 1].child), TuplesOf(s', leaves[j].child);
    BagJoined(Contents(s, leaves[..j]), ts, us, Contents(s, leaves[j + 2..]), vs);
  }

  lemma BagJoined(a: seq<Tuple>, l: seq<Tuple>, r: seq<Tuple>, b: seq<Tuple>, vs: seq<Tuple>)
    requires multiset(vs) == multiset(l) + multiset(r)
    ensures multiset(a + vs + b) == multiset(a + (l + r) + b)
  {
    BagTwo(l, r);
    BagThree(a, l + r, b);
    BagThree(a, vs, b);
  }

  /** The leaves were joined; the tree above has not changed yet. */
  lemma JoinedDetaching(a: State, a1: State, leafCap: nat, nodeCap: nat, w: nat, c: nat, j: nat, l: nat, r: nat, q: nat, ex: nat)
    requires LeafPairing(a, leafCap, nodeCap, w, c, j, l, r, q, ex)
    requires LeavesJoined(a.pages, a1.pages, l, r) && a1.tree == a.tree && a1.inUse == a.inUse
    ensures Detaching(a1, 0, nodeCap, w, c, j, l, r, q)
  {
    hide Siblings, LeavesOK, Above, SortedTuples, NoDup, SortedLevel;
    LeafPairPages(a, leafCap, nodeCap, w, c, j, l, r, q, ex);
    TreeLeaves(a, leafCap, nodeCap, ex, q);
    JoinedSame(a, a1.pages, nodeCap, l, r);
    AboveFrame(a.pages, a1.pages, a.tree, 0, nodeCap, 0);
    JoinedSiblings(a.pages, a1.pages, a.tree, nodeCap, w, c, j, l, r, q);
  }

  /** The chain of leaves stays inside the leaf level. */
  lemma JoinedSame(a: State, s': Store, nodeCap: nat, l: nat, r: nat)
    requires Above(a.pages, a.tree, 0, nodeCap, 0) && LeavesJoined(a.pages, s', l, r)
    requires l in a.tree.heightOf && a.tree.heightOf[l] == 0 && r in a.tree.heightOf && a.tree.heightOf[r] == 0
    ensures AboveSame(a.pages, s', a.tree, 0)
  {
    hide LevelOK, SortedTuples, SortedLevel;
  }

  lemma JoinedSiblings(s: Store, s': Store, t: Tree, nodeCap: nat, w: nat, c: nat, j: nat, l: nat, r: nat, q: nat)
    requires Above(s, t, 0, nodeCap, 0) && Siblings(s, t, 0, w, c, j, l, r, q) && AboveSame(s, s', t, 0)
    ensures Siblings(s', t, 0, w, c, j, l, r, q)
  {
    hide Above, SortedLevel, Placed, Linked, Filled, Rooted, Typed, NoDup, Expand, Offset, AboveSame;
    LevelBelow(s, t, 0, nodeCap, 0);
    SiblingPages(s, t, 0, nodeCap, w, c, j, l, r, q);
    SiblingsAt(s, t, 0, nodeCap, w, c, j, l, r, q);
    AboveFrame(s, s', t, 0, nodeCap, 0);
    SameOffsets(s, s', t, 0, w);
    SiblingsAt(s', t, 0, nodeCap, w, c, j, l, r, q);
  }

  lemma SameOffsets(s: Store, s': Store, t: Tree, i: nat, w: nat)
    requires Placed(t) && i + 1 < |t.levels| && AboveSame(s, s', t, i) && w < |t.levels[i + 1]|
    ensures Offset(s', t.levels[i + 1], w) == Offset(s, t.levels[i + 1], w)
    ensures SlotsOf(s', t.levels[i + 1][w].child) == SlotsOf(s, t.levels[i + 1][w].child)
  {
    var up := t.levels[i + 1];
    forall x | 0 <= x < |up|
      ensures SlotsOf(s', up[x].child) == SlotsOf(s, up[x].child)
    {
      LevelHeight(t, i + 1, x);
    }
    ExpandFrame(s, s', up[..w]);
  }

  /** Later steps change the leaves in their parent pointers only. */
  lemma JoinedKept(s: Store, a1: State, b: State, d: State, leaves: Level, j: nat, r: nat)
    requires |a1.tree.levels| > 0 && leaves == a1.tree.levels[0] && Placed(a1.tree) && j + 1 < |leaves|
    requires leaves[j + 1].child == r && LeavesJoinedIn(s, a1.pages, leaves, j)
    requires Progress(a1, b, 0, r)
    requires d.tree == b.tree && d.inUse == b.inUse - {r}
    requires forall p :: p in d.inUse ==> p in b.pages && p in d.pages && d.pages[p] == b.pages[p]
    ensures LeavesJoinedIn(s, d.pages, leaves, j)
  {
    hide SortedTuples;
    assert NoDup(leaves);
    forall i | 0 <= i < |leaves| && i != j + 1
      ensures leaves[i].child in a1.pages && leaves[i].child in d.pages
      ensures SameButParent(a1.pages[leaves[i].child], d.pages[leaves[i].child])
    {
      LevelHeight(a1.tree, 0, i);
      assert leaves[i].child != r;
      assert leaves[i].child in b.tree.heightOf;
    }
    forall i | 0 <= i < |leaves| && i != j && i != j + 1 && i != j + 2
      ensures LeafSame(s, d.pages, leaves[i].child)
    {
      assert LeafSame(s, a1.pages, leaves[i].child);
    }
  }

  /** mergeLeafPages is done. */
  lemma MergedLegal(a: State, a1: State, b: State, d: State, leafCap: nat, nodeCap: nat, w: nat, c: nat, j: nat, l: nat, r: nat, q: nat, ex: nat)
    requires LeafPairing(a, leafCap, nodeCap, w, c, j, l, r, q, ex) && leafCap >= 2
    requires |TuplesOf(a.pages, l)| + |TuplesOf(a.pages, r)| <= leafCap
    requires LeavesJoined(a.pages, a1.pages, l, r) && a1.tree == a.tree && a1.inUse == a.inUse
    requires a.tree.levels != [] && j + 1 < |a.tree.levels[0]|
    requires Detached(a1, b, 0, nodeCap, j + 1, r)
    requires d.tree == b.tree && d.inUse == b.inUse - {r} && 0 !in d.inUse
    requires forall p :: p in d.inUse ==> p in b.pages && p in d.pages && d.pages[p] == b.pages[p]
    requires 0 in b.pages && 0 in d.pages && b.pages[0].RootPtrPage? && d.pages[0].RootPtrPage?
    requires d.pages[0] == b.pages[0].(header := d.pages[0].header)
    ensures Legal(d, leafCap, nodeCap, 0)
    ensures multiset(Contents(d.pages, d.tree.levels[0])) == multiset(Contents(a.pages, a.tree.levels[0]))
    ensures d.tree.levels[0] == RemoveAt(a.tree.levels[0], j + 1)
  {
    hide Siblings, LeavesOK, Above, SortedTuples, NoDup, SortedLevel, Progress, Contents, LeavesJoined, LeavesJoinedIn, Loose;
    LeafPairPages(a, leafCap, nodeCap, w, c, j, l, r, q, ex);
    LegalPlaced(a, leafCap, nodeCap, ex);
    var leaves := a.tree.levels[0];
    JoinedInPlace(a, a1.pages, leafCap, nodeCap, j, l, r, ex);
    JoinedKept(a.pages, a1, b, d, leaves, j, r);
    JoinedLeavesOK(a.pages, d.pages, leaves, leafCap, ex, j);
    JoinedContents(a.pages, d.pages, leaves, j);
    FreedAbove(a1, b, d, nodeCap, r);
    NothingLeft(a1, b, d, r);
  }

  lemma LegalPlaced(a: State, leafCap: nat, nodeCap: nat, ex: nat)
    requires Legal(a, leafCap, nodeCap, ex)
    ensures Placed(a.tree) && a.inUse == a.tree.heightOf.Keys
  {
  }

  /** Freeing a page outside the tree. */
  lemma FreedAbove(a: State, b: State, d: State, nodeCap: nat, r: nat)
    requires Above(b.pages, b.tree, 0, nodeCap, 0) && Loose(b, r) && Progress(a, b, 0, r)
    requires d.tree == b.tree && d.inUse == b.inUse - {r}
    requires forall p :: p in d.inUse ==> p in b.pages && p in d.pages && d.pages[p] == b.pages[p]
    requires 0 in b.pages && 0 in d.pages && b.pages[0].RootPtrPage? && d.pages[0].RootPtrPage?
    requires d.pages[0] == b.pages[0].(header := d.pages[0].header)
    ensures Above(d.pages, d.tree, 0, nodeCap, 0)
  {
    hide LevelOK, SortedLevel;
    assert AboveSame(b.pages, d.pages, b.tree, 0);
    AboveFrame(b.pages, d.pages, b.tree, 0, nodeCap, 0);
  }

  /** When the loose page is freed only the tree is in use. */
  lemma NothingLeft(a: State, b: State, d: State, r: nat)
    requires a.inUse == a.tree.heightOf.Keys && Progress(a, b, 0, r) && Loose(b, r)
    requires d.tree == b.tree && d.inUse == b.inUse - {r}
    ensures d.inUse == d.tree.heightOf.Keys
  {
    forall p | p in d.inUse
      ensures p in d.tree.heightOf
    {
      assert !Loose(a, p);
      assert !Loose(b, p);
    }
  }

  // ------------------------------------------------- what the methods compute

  /** stealFromLeafPage with a left sibling: the tuples of l from h on moved to r. */
  lemma StolenFromLeft(s: Store, s1: Store, s2: Store, l: nat, r: nat, q: nat, c: nat, h: nat, sep: int, key: int)
    requires TuplesMoved(s, s1, l, h, r) && h < |TuplesOf(s, l)| && key == TuplesOf(s, l)[h].key
    requires q in s && s[q].InternalPage? && 0 < c < |s[q].slots| && q in s1 && s1[q] == s[q]
    requires s2 == s1[q := s[q].(slots := s[q].slots[c := Slot(key, r)])]
    requires SortedTuples(TuplesOf(s, l)) && AllAtMost(TuplesOf(s, l), sep) && AllAtLeast(TuplesOf(s, r), sep)
    ensures Reshared(s, s2, l, r, q, c, key)
  {
    hide SortedTuples, AllAtMost, AllAtLeast;
    var ts, us := s[l].tuples, s[r].tuples;
    assert ts == ts[..h] + ts[h..];
    BagTwo(ts[..h], ts[h..]);
    BagTwo(us, ts[h..]);
    BagBounds(us + ts[h..], s1[r].tuples, key);
    BackBounds(ts, us, h, sep);
    SortedTail(ts, h);
  }

  /** The pages after a borrow from the left. */
  lemma BorrowedLeft(s: Store, s1: Store, s2: Store, l: nat, r: nat, q: nat, c: nat, h: nat, key: int)
    requires TuplesMoved(s, s1, l, h, r) && h < |TuplesOf(s, l)| && key == TuplesOf(s, l)[h].key
    requires q in s && s[q].InternalPage? && 0 < c < |s[q].slots| && q in s1 && s1[q] == s[q] && q != l && q != r
    requires s2 == s1[q := s[q].(slots := s[q].slots[c := Slot(key, r)])]
    requires SortedTuples(TuplesOf(s2, r)) && AllAtLeast(TuplesOf(s2, r), key)
    ensures TuplesOf(s2, l) == TuplesOf(s, l)[..h]
    ensures TuplesOf(s2, r) == PutAll(TuplesOf(s, r), Backward(TuplesOf(s, l)[h..])) && TuplesOf(s2, r)[0].key == key
    ensures SlotsOf(s2, q) == SlotsOf(s, q)[c := Slot(key, r)]
    ensures forall p :: p in s && p != l && p != r && p != q ==> p in s2 && s2[p] == s[p]
  {
    hide PutAll, Backward;
    var ts, us := TuplesOf(s, l), TuplesOf(s2, r);
    assert ts[h] in multiset(ts[h..]);
    assert ts[h] in multiset(us);
    var x :| 0 <= x < |us| && us[x] == ts[h];
    assert us[0].key <= us[x].key;
  }

  /** What becomes of leaf p and its left sibling l when p is short: a sibling of at most half
      its tuples takes all of p's and p is freed, another gives p half of what it has more and
      is all that joins the write set. */
  ghost predicate SharedLeft(s: Store, s': Store, inUse': set<nat>, l: nat, p: nat, leafCap: nat,
                             before: set<nat>, after: set<nat>) {
    var few, many := TuplesOf(s, p), TuplesOf(s, l);
    if |many| <= leafCap / 2 then
      l in inUse' && p !in inUse' && TuplesOf(s', l) == PutAll(many, few)
    else
      var left := |many| - (|many| - |few|) / 2;
      && 0 < left < |many| && {l, p} <= inUse' && TuplesOf(s', l) == many[..left]
      && TuplesOf(s', p) == PutAll(few, Backward(many[left..])) && after == before + {l}
  }

  /** The same with its right sibling r, which is the page freed. */
  ghost predicate SharedRight(s: Store, s': Store, inUse': set<nat>, p: nat, r: nat, leafCap: nat,
                              before: set<nat>, after: set<nat>) {
    var few, many := TuplesOf(s, p), TuplesOf(s, r);
    if |many| <= leafCap / 2 then
      p in inUse' && r !in inUse' && TuplesOf(s', p) == PutAll(few, many)
    else
      var moved := (|many| - |few|) / 2;
      && 0 < moved < |many| && {p, r} <= inUse' && TuplesOf(s', r) == many[moved..]
      && TuplesOf(s', p) == PutAll(few, many[..moved]) && after == before + {r}
  }

  /** Page p is one child of its parent, so what becomes of it at one place is all. */
  lemma SharedOnce(s: Store, s': Store, inUse': set<nat>, slots: seq<Slot>, c: nat, p: nat, leafCap: nat,
                   before: set<nat>, after: set<nat>)
    requires DistinctChildren(slots) && c < |slots| && slots[c].child == p
    requires c > 0 ==> SharedLeft(s, s', inUse', slots[c - 1].child, p, leafCap, before, after)
    requires c == 0 && |slots| > 1 ==> SharedRight(s, s', inUse', p, slots[1].child, leafCap, before, after)
    ensures forall e :: 0 <= e < |slots| && slots[e].child == p ==>
              && (e > 0 ==> SharedLeft(s, s', inUse', slots[e - 1].child, p, leafCap, before, after))
              && (e == 0 && |slots| > 1 ==> SharedRight(s, s', inUse', p, slots[1].child, leafCap, before, after))
  {
    hide SharedLeft, SharedRight;
  }

  /** After a merge the left page holds the tuples of both, and the right one is free. */
  lemma JoinedStay(a: State, a1: State, b: State, d: State, j: nat, l: nat, r: nat, nodeCap: nat)
    requires LeavesJoined(a.pages, a1.pages, l, r) && a1.tree == a.tree && a1.inUse == a.inUse
    requires a.tree.levels != [] && j + 1 < |a.tree.levels[0]| && l in a.tree.heightOf && a.tree.heightOf[l] == 0 && l in a.inUse
    requires Detached(a1, b, 0, nodeCap, j + 1, r)
    requires d.inUse == b.inUse - {r} && forall p :: p in d.inUse ==> p in b.pages && p in d.pages && d.pages[p] == b.pages[p]
    ensures l in d.inUse && r !in d.inUse && TuplesOf(d.pages, l) == PutAll(TuplesOf(a.pages, l), TuplesOf(a.pages, r))
  {
    hide Above, PutAll, Contents, SortedTuples;
  }

  /** and from the right. */
  lemma BorrowedRight(s: Store, s1: Store, s2: Store, l: nat, r: nat, q: nat, c: nat, h: nat, key: int)
    requires FrontMoved(s, s1, r, h, l) && h < |TuplesOf(s, r)| && key == TuplesOf(s, r)[h].key
    requires q in s && s[q].InternalPage? && 0 < c < |s[q].slots| && q in s1 && s1[q] == s[q] && q != l && q != r
    requires s2 == s1[q := s[q].(slots := s[q].slots[c := Slot(key, r)])]
    ensures TuplesOf(s2, r) == TuplesOf(s, r)[h..]
    ensures TuplesOf(s2, l) == PutAll(TuplesOf(s, l), TuplesOf(s, r)[..h])
    ensures SlotsOf(s2, q) == SlotsOf(s, q)[c := Slot(key, r)]
    ensures forall p :: p in s && p != l && p != r && p != q ==> p in s2 && s2[p] == s[p]
  {
    hide PutAll;
  }

  lemma ResharedRight(s: Store, s': Store, l: nat, r: nat, q: nat, c: nat, key: int)
    requires Reshared(s, s', l, r, q, c, key)
    ensures SortedTuples(TuplesOf(s', r)) && AllAtLeast(TuplesOf(s', r), key)
  {
  }

  /** stealFromLeafPage with a right sibling: the first h tuples of r moved to l. */
  lemma StolenFromRight(s: Store, s1: Store, s2: Store, l: nat, r: nat, q: nat, c: nat, h: nat, sep: int, key: int)
    requires FrontMoved(s, s1, r, h, l) && h < |TuplesOf(s, r)| && key == TuplesOf(s, r)[h].key
    requires q in s && s[q].InternalPage? && 0 < c < |s[q].slots| && q in s1 && s1[q] == s[q]
    requires s2 == s1[q := s[q].(slots := s[q].slots[c := Slot(key, r)])]
    requires SortedTuples(TuplesOf(s, r)) && AllAtMost(TuplesOf(s, l), sep) && AllAtLeast(TuplesOf(s, r), sep)
    ensures Reshared(s, s2, l, r, q, c, key)
  {
    hide SortedTuples, AllAtMost, AllAtLeast;
    var ts, us := s[l].tuples, s[r].tuples;
    assert us == us[..h] + us[h..];
    BagTwo(us[..h], us[h..]);
    BagTwo(ts, us[..h]);
    BagBounds(ts + us[..h], s1[l].tuples, key);
    FrontBounds(ts, us, h, sep);
    SortedTail(us, h);
  }

  lemma FrontBounds(ts: seq<Tuple>, us: seq<Tuple>, h: nat, sep: int)
    requires SortedTuples(us) && AllAtMost(ts, sep) && AllAtLeast(us, sep) && h < |us|
    ensures AllAtMost(ts + us[..h], us[h].key) && AllAtLeast(us[h..], us[h].key)
  {
    assert sep <= us[h].key;
  }

  lemma BackBounds(ts: seq<Tuple>, us: seq<Tuple>, h: nat, sep: int)
    requires SortedTuples(ts) && AllAtMost(ts, sep) && AllAtLeast(us, sep) && h < |ts|
    ensures AllAtLeast(us + ts[h..], ts[h].key) && AllAtMost(ts[..h], ts[h].key)
  {
    assert ts[h].key <= sep;
  }

  lemma SortedTail(ts: seq<Tuple>, h: nat)
    requires SortedTuples(ts) && h <= |ts|
    ensures SortedTuples(ts[h..]) && SortedTuples(ts[..h])
  {
  }

  /** updateEntry gives the separator its new key. */
  lemma SeparatorUpdated(a: State, s': Store, leafCap: nat, nodeCap: nat, w: nat, c: nat, j: nat, l: nat, r: nat, q: nat, ex: nat, key: int)
    requires LeafPairing(a, leafCap, nodeCap, w, c, j, l, r, q, ex)
    requires Reshared(a.pages, s', l, r, q, c, key) && TuplesOf(s', l) != [] && TuplesOf(s', r) != []
    ensures 0 < c < |SlotsOf(a.pages, q)|
    ensures UpdateEntry(SlotsOf(a.pages, q), c, key, l, r) == Some(SlotsOf(a.pages, q)[c := Slot(key, r)])
  {
    hide Above, LeavesOK, SortedLevel, NoDup, Reshared, Offset;
    LeafPairPages(a, leafCap, nodeCap, w, c, j, l, r, q, ex);
    ResharedKey(a.pages, s', a.tree.levels[0], leafCap, ex, j, l, r, q, c, key);
    var slots := SlotsOf(a.pages, q);
    assert slots[c - 1 := Slot(slots[c - 1].key, l)] == slots;
  }

  lemma LeafPairTuples(a: State, leafCap: nat, nodeCap: nat, w: nat, c: nat, j: nat, l: nat, r: nat, q: nat, ex: nat)
    requires LeafPairing(a, leafCap, nodeCap, w, c, j, l, r, q, ex)
    ensures a.tree.levels != [] && j + 1 < |a.tree.levels[0]|
    ensures var sep := a.tree.levels[0][j + 1].key;
            && SortedTuples(TuplesOf(a.pages, l)) && SortedTuples(TuplesOf(a.pages, r))
            && AllAtMost(TuplesOf(a.pages, l), sep) && AllAtLeast(TuplesOf(a.pages, r), sep)
    ensures |TuplesOf(a.pages, l)| <= leafCap && |TuplesOf(a.pages, r)| <= leafCap
    ensures |TuplesOf(a.pages, l)| >= MinTuples(leafCap) - (if ex == l then 1 else 0)
    ensures |TuplesOf(a.pages, r)| >= MinTuples(leafCap) - (if ex == r then 1 else 0)
  {
    hide Above, SortedLevel, NoDup, SortedTuples, Siblings;
    LeafPairPages(a, leafCap, nodeCap, w, c, j, l, r, q, ex);
    var leaves := a.tree.levels[0];
    PairBounds(a.pages, leaves, leafCap, ex, j);
    assert LeafOK(a.pages, leaves, j, leafCap, ex) && LeafOK(a.pages, leaves, j + 1, leafCap, ex);
  }

  /** The leaf after r in the chain. */
  lemma LeafAfter(a: State, leafCap: nat, nodeCap: nat, w: nat, c: nat, j: nat, l: nat, r: nat, q: nat, ex: nat)
    requires LeafPairing(a, leafCap, nodeCap, w, c, j, l, r, q, ex)
    ensures r in a.pages && a.pages[r].LeafPage?
    ensures var next := a.pages[r].right;
            next != 0 ==> next != l && next != r && next != q && next in a.inUse && next in a.pages && a.pages[next].LeafPage?
  {
    hide Above, SortedLevel, SortedTuples, Siblings, Legal;
    LeafPairPages(a, leafCap, nodeCap, w, c, j, l, r, q, ex);
    LeafPlace(a, leafCap, nodeCap, ex, j + 1) by { PairLegal(a, leafCap, nodeCap, w, c, j, l, r, q, ex); }
  }

  lemma PairLegal(a: State, leafCap: nat, nodeCap: nat, w: nat, c: nat, j: nat, l: nat, r: nat, q: nat, ex: nat)
    requires LeafPairing(a, leafCap, nodeCap, w, c, j, l, r, q, ex)
    ensures Legal(a, leafCap, nodeCap, ex) && Siblings(a.pages, a.tree, 0, w, c, j, l, r, q) && nodeCap >= 3
  {
  }

  /** The parent of a leaf lists it once. */
  lemma ParentDistinct(a: State, leafCap: nat, nodeCap: nat, i: nat)
    requires Legal(a, leafCap, nodeCap, 0) && i < |a.tree.levels[0]|
    ensures DistinctChildren(SlotsOf(a.pages, ParentOf(a.pages, a.tree.levels[0][i].child)))
  {
    hide LeavesOK, DistinctChildren, Above;
    LegalRoot(a, leafCap, nodeCap, 0);
    var p := a.tree.levels[0][i].child;
    if ParentOf(a.pages, p) != 0 {
      var w, c := FindSiblings(a.pages, a.tree, 0, nodeCap, i, p);
    } else {
      NoneDistinct();
    }
  }

  lemma NoneDistinct()
    ensures DistinctChildren([])
  {
  }

  /** All tuples of r moved to l, and the chain goes round r. */
  lemma LeavesJoinedNow(s: Store, s1: Store, s2: Store, l: nat, r: nat)
    requires l in s && r in s && l != r && s[r].LeafPage? && s[l].LeafPage?
    requires FrontMoved(s, s1, r, |s[r].tuples|, l) && l in s1 && s1[l].LeafPage?
    requires var next := s[r].right;
             && (next != 0 ==> next in s && next != l && next != r && s[next].LeafPage? && next in s1)
             && s2 == (var s' := s1[l := s1[l].(right := next)];
                       if next != 0 then s'[next := s[next].(left := l)] else s')
    ensures LeavesJoined(s, s2, l, r)
  {
    hide SortedTuples;
    assert s[r].tuples[..|s[r].tuples|] == s[r].tuples;
  }

  // ------------------------------------------------- taking a tuple out

  function RemoveTuple(ts: seq<Tuple>, index: nat): (r: seq<Tuple>)
    requires index < |ts|
    ensures |r| == |ts| - 1
  {
    ts[..index] + ts[index + 1..]
  }

  lemma RemoveTupleIs(ts: seq<Tuple>, index: nat)
    requires index < |ts|
    ensures RemoveTuple(ts, index) == ts[..index] + ts[index + 1..]
  {
  }

  /** The pages with a tuple taken off leaf page p. */
  function Without(s: Store, p: nat, index: nat): (s': Store)
    requires p in s && s[p].LeafPage? && index < |s[p].tuples|
    ensures TuplesOf(s', p) == s[p].tuples[..index] + s[p].tuples[index + 1..]
    ensures forall x :: x != p ==> TuplesOf(s', x) == TuplesOf(s, x) && SlotsOf(s', x) == SlotsOf(s, x)
  {
    s[p := s[p].(tuples := RemoveTuple(s[p].tuples, index))]
  }

  lemma RemovedBag(ts: seq<Tuple>, index: nat)
    requires index < |ts|
    ensures multiset(RemoveTuple(ts, index)) + multiset{ts[index]} == multiset(ts)
  {
    assert ts == ts[..index] + [ts[index]] + ts[index + 1..];
    BagThree(ts[..index], [ts[index]], ts[index + 1..]);
    BagTwo(ts[..index], ts[index + 1..]);
  }

  lemma RemoveBags(a: seq<Tuple>, ts: seq<Tuple>, b: seq<Tuple>, index: nat)
    requires index < |ts|
    ensures multiset(a + RemoveTuple(ts, index) + b) + multiset{ts[index]} == multiset(a + ts + b)
  {
    RemovedBag(ts, index);
    BagThree(a, ts, b);
    BagThree(a, RemoveTuple(ts, index), b);
  }

  lemma OtherLeaves(a: State, leafCap: nat, nodeCap: nat, i: nat)
    requires Legal(a, leafCap, nodeCap, 0) && i < |a.tree.levels[0]|
    ensures forall x :: 0 <= x < |a.tree.levels[0]| && x != i ==>
              a.tree.levels[0][x].child != 0 && a.tree.levels[0][x].child != a.tree.levels[0][i].child
  {
    LeafPlace(a, leafCap, nodeCap, 0, i);
    forall x | 0 <= x < |a.tree.levels[0]| && x != i
      ensures a.tree.levels[0][x].child != 0 && a.tree.levels[0][x].child != a.tree.levels[0][i].child
    {
      LevelHeight(a.tree, 0, x);
    }
  }

  lemma RemovedFits(s: Store, s': Store, leaves: Level, i: nat, index: nat, cap: nat)
    requires LeavesOK(s, leaves, cap, 0) && i < |leaves| && index < |TuplesOf(s, leaves[i].child)|
    requires leaves[i].child != 0
    requires LeafPut(s, s', leaves, i, RemoveTuple(TuplesOf(s, leaves[i].child), index))
    ensures LeafOrdered(s', leaves, i) && LeafSized(s', leaves, i, cap, leaves[i].child)
  {
    assert LeafOK(s, leaves, i, cap, 0);
  }

  /** deleteTuple on leaf i, which may now have one tuple too few. */
  lemma TupleRemoved(a: State, b: State, leafCap: nat, nodeCap: nat, i: nat, index: nat)
    requires Legal(a, leafCap, nodeCap, 0) && i < |a.tree.levels[0]|
    requires index < |TuplesOf(a.pages, a.tree.levels[0][i].child)|
    requires b.tree == a.tree && b.inUse == a.inUse
    requires LeafPut(a.pages, b.pages, a.tree.levels[0], i, RemoveTuple(TuplesOf(a.pages, a.tree.levels[0][i].child), index))
    ensures Legal(b, leafCap, nodeCap, a.tree.levels[0][i].child)
    ensures multiset(Contents(b.pages, b.tree.levels[0])) + multiset{TuplesOf(a.pages, a.tree.levels[0][i].child)[index]} ==
            multiset(Contents(a.pages, a.tree.levels[0]))
  {
    hide Above, Contents, LeavesOK, LeafSized, RemoveTuple, NoDup;
    LegalRoot(a, leafCap, nodeCap, 0);
    var leaves := a.tree.levels[0];
    var p := leaves[i].child;
    var ts := TuplesOf(a.pages, p);
    PutAbove(a, b, leafCap, nodeCap, i, RemoveTuple(ts, index), 0);
    PutContents(a.pages, b.pages, leaves, i, RemoveTuple(ts, index));
    RemoveBags(Contents(a.pages, leaves[..i]), ts, Contents(a.pages, leaves[i + 1..]), index);
    OtherLeaves(a, leafCap, nodeCap, i);
    RemovedFits(a.pages, b.pages, leaves, i, index, leafCap);
    PutLeavesOK(a.pages, b.pages, leaves, i, RemoveTuple(ts, index), leafCap, 0, p);
  }

  /** A leaf that has enough tuples, or is the root, makes no exception. */
  lemma LegalEnough(a: State, leafCap: nat, nodeCap: nat, i: nat)
    requires a.tree.levels != [] && i < |a.tree.levels[0]| && Legal(a, leafCap, nodeCap, a.tree.levels[0][i].child)
    requires |TuplesOf(a.pages, a.tree.levels[0][i].child)| >= MinTuples(leafCap) || |a.tree.levels[0]| == 1
    ensures Legal(a, leafCap, nodeCap, 0)
  {
    var leaves := a.tree.levels[0];
    forall x | 0 <= x < |leaves|
      ensures LeafOK(a.pages, leaves, x, leafCap, 0)
    {
      assert LeafOK(a.pages, leaves, x, leafCap, leaves[i].child);
    }
  }

  /** The pairs leaf j, page p, can borrow in or merge in. */
  lemma LeafSiblings(a: State, leafCap: nat, nodeCap: nat, j: nat, p: nat) returns (w: nat, c: nat)
    requires Legal(a, leafCap, nodeCap, p) && j < |a.tree.levels[0]| && a.tree.levels[0][j].child == p && nodeCap >= 5
    requires ParentOf(a.pages, p) != 0
    ensures var q := ParentOf(a.pages, p);
            var slots := SlotsOf(a.pages, q);
            && q in a.inUse && q in a.pages && a.pages[q].InternalPage?
            && c < |slots| && 2 <= |slots| && slots[c].child == p && DistinctChildren(slots)
            && (c > 0 ==> j > 0 && LeafPairing(a, leafCap, nodeCap, w, c, j - 1, slots[c - 1].child, p, q, p))
            && (c + 1 < |slots| ==> LeafPairing(a, leafCap, nodeCap, w, c + 1, j, p, slots[c + 1].child, q, p))
  {
    hide Above, LeavesOK, Siblings, DistinctChildren;
    w, c := FindSiblings(a.pages, a.tree, 0, nodeCap, j, p);
  }

  /** The only leaf of a tree is its root. */
  lemma RootLeafAlone(a: State, leafCap: nat, nodeCap: nat, j: nat, p: nat)
    requires Legal(a, leafCap, nodeCap, p) && j < |a.tree.levels[0]| && a.tree.levels[0][j].child == p
    requires ParentOf(a.pages, p) == 0
    ensures Legal(a, leafCap, nodeCap, 0)
  {
    ParentlessIsTop(a.pages, a.tree, 0, nodeCap, 0, j);
    LegalEnough(a, leafCap, nodeCap, j);
  }

  /** Where a leaf page of the tree is. */
  lemma LeafIndex(a: State, leafCap: nat, nodeCap: nat, p: nat) returns (i: nat)
    requires Legal(a, leafCap, nodeCap, 0) && p in a.inUse && p in a.pages && a.pages[p].LeafPage?
    ensures a.tree.levels != [] && i < |a.tree.levels[0]| && a.tree.levels[0][i].child == p
  {
    assert Typed(a.pages, a.tree) && Placed(a.tree);
    i := NodeIndex(a.tree, 0, p);
  }

  lemma OtherKept(s: Store, s1: Store, p: nat, h: nat, r: nat, q: nat)
    requires TuplesMoved(s, s1, p, h, r) && q in s && q != p && q != r
    ensures q in s1 && s1[q] == s[q] && s1.Keys == s.Keys
  {
  }

  lemma OtherKeptFront(s: Store, s1: Store, p: nat, h: nat, l: nat, q: nat)
    requires FrontMoved(s, s1, p, h, l) && q in s && q != p && q != l
    ensures q in s1 && s1[q] == s[q] && s1.Keys == s.Keys
  {
  }

  lemma DetachedLoose(a: State, b: State, k: nat, cap: nat, x: nat, r: nat)
    requires k < |a.tree.levels| && x < |a.tree.levels[k]| && Detached(a, b, k, cap, x, r)
    ensures r in b.inUse
  {
  }

  lemma EmptySorted()
    ensures SortedTuples([])
  {
  }
}
