/** The leaf level of a B+ tree: the sibling chain, the separators on both sides of a
    leaf, and what the leaves hold. */
module Leaves {
  import opened Pages
  import opened Levels
  import opened Trees

  // ------------------------------------------------------------------ conditions

  ghost predicate AllAtLeast(ts: seq<Tuple>, key: int) {
    forall i :: 0 <= i < |ts| ==> key <= ts[i].key
  }

  ghost predicate AllAtMost(ts: seq<Tuple>, key: int) {
    forall i :: 0 <= i < |ts| ==> ts[i].key <= key
  }

  /** The tuples of leaf i are sorted and lie between the separators of the leaf. */
  ghost predicate LeafOrdered(s: Store, leaves: Level, i: nat)
    requires i < |leaves|
  {
    var ts := TuplesOf(s, leaves[i].child);
    && SortedTuples(ts)
    && (i > 0 ==> AllAtLeast(ts, leaves[i].key))
    && (i + 1 < |leaves| ==> AllAtMost(ts, leaves[i + 1].key))
  }

  /** Leaf i names its neighbours, and null at the two ends. */
  ghost predicate LeafLinked(s: Store, leaves: Level, i: nat)
    requires i < |leaves|
  {
    var p := leaves[i].child;
    && p in s && s[p].LeafPage?
    && s[p].left == (if i > 0 then leaves[i - 1].child else 0)
    && s[p].right == (if i + 1 < |leaves| then leaves[i + 1].child else 0)
  }

  /** The fewest tuples of a leaf that is not the root. */
  function MinTuples(cap: nat): nat {
    cap / 2
  }

  /** Leaf i holds a legal number of tuples; ex is a page that has just lost a tuple. */
  ghost predicate LeafSized(s: Store, leaves: Level, i: nat, cap: nat, ex: nat)
    requires i < |leaves|
  {
    var n := |TuplesOf(s, leaves[i].child)|;
    && n <= cap
    && (|leaves| > 1 ==> n >= MinTuples(cap) - (if leaves[i].child == ex then 1 else 0))
  }

  ghost predicate LeafOK(s: Store, leaves: Level, i: nat, cap: nat, ex: nat)
    requires i < |leaves|
  {
    LeafOrdered(s, leaves, i) && LeafLinked(s, leaves, i) && LeafSized(s, leaves, i, cap, ex)
  }

  ghost predicate LeavesOK(s: Store, leaves: Level, cap: nat, ex: nat) {
    forall i :: 0 <= i < |leaves| ==> LeafOK(s, leaves, i, cap, ex)
  }

  /** The tuples of the leaves, from left to right. */
  function Contents(s: Store, leaves: Level): seq<Tuple> {
    if leaves == [] then [] else TuplesOf(s, leaves[0].child) + Contents(s, leaves[1..])
  }

  // ------------------------------------------------------------------ contents

  lemma {:induction false} ContentsAppend(s: Store, a: Level, b: Level)
    ensures Contents(s, a + b) == Contents(s, a) + Contents(s, b)
  {
    if a == [] {
      assert a + b == b;
    } else {
      assert (a + b)[0] == a[0] && (a + b)[1..] == a[1..] + b;
      ContentsAppend(s, a[1..], b);
    }
  }

  lemma {:induction false} ContentsFrame(s: Store, s': Store, leaves: Level)
    requires forall i :: 0 <= i < |leaves| ==> TuplesOf(s', leaves[i].child) == TuplesOf(s, leaves[i].child)
    ensures Contents(s', leaves) == Contents(s, leaves)
  {
    if leaves != [] {
      forall i | 0 <= i < |leaves[1..]|
        ensures TuplesOf(s', leaves[1..][i].child) == TuplesOf(s, leaves[1..][i].child)
      {
        assert leaves[1..][i] == leaves[i + 1];
      }
      ContentsFrame(s, s', leaves[1..]);
    }
  }

  lemma ContentsSingle(s: Store, x: Slot)
    ensures Contents(s, [x]) == TuplesOf(s, x.child)
  {
    assert Contents(s, [x][1..]) == [];
  }

  lemma ContentsThree(s: Store, a: Level, m: Level, b: Level)
    ensures Contents(s, a + m + b) == Contents(s, a) + Contents(s, m) + Contents(s, b)
  {
    ContentsAppend(s, a + m, b);
    ContentsAppend(s, a, m);
  }

  lemma ContentsAt(s: Store, leaves: Level, i: nat)
    requires i < |leaves|
    ensures Contents(s, leaves) ==
            Contents(s, leaves[..i]) + TuplesOf(s, leaves[i].child) + Contents(s, leaves[i + 1..])
  {
    assert leaves == leaves[..i] + [leaves[i]] + leaves[i + 1..];
    ContentsThree(s, leaves[..i], [leaves[i]], leaves[i + 1..]);
    ContentsSingle(s, leaves[i]);
  }

  lemma BagThree(a: seq<Tuple>, m: seq<Tuple>, b: seq<Tuple>)
    ensures multiset(a + m + b) == multiset(a) + multiset(m) + multiset(b)
  {
  }

  lemma BagTwo(a: seq<Tuple>, b: seq<Tuple>)
    ensures multiset(a + b) == multiset(a) + multiset(b)
  {
  }

  lemma {:induction false} SortedConcat(a: seq<Tuple>, b: seq<Tuple>)
    requires SortedTuples(a) && SortedTuples(b)
    requires a != [] && b != [] ==> a[|a| - 1].key <= b[0].key
    ensures SortedTuples(a + b)
  {
    forall i, j | 0 <= i <= j < |a + b|
      ensures (a + b)[i].key <= (a + b)[j].key
    {
      if i < |a| <= j {
        assert a[i].key <= a[|a| - 1].key;
        assert b[0].key <= b[j - |a|].key;
      }
    }
  }

  /** From leaf i on, the contents are sorted and not below the separator of leaf i. */
  lemma {:induction false} ContentsFrom(s: Store, leaves: Level, i: nat)
    requires i <= |leaves| && SortedLevel(leaves)
    requires forall x :: 0 <= x < |leaves| ==> LeafOrdered(s, leaves, x)
    ensures SortedTuples(Contents(s, leaves[i..]))
    ensures 0 < i < |leaves| ==> AllAtLeast(Contents(s, leaves[i..]), leaves[i].key)
    decreases |leaves| - i
  {
    if i < |leaves| {
      ContentsFrom(s, leaves, i + 1);
      var ts, rest := TuplesOf(s, leaves[i].child), Contents(s, leaves[i + 1..]);
      assert leaves[i..][0] == leaves[i] && leaves[i..][1..] == leaves[i + 1..];
      assert LeafOrdered(s, leaves, i);
      SortedConcat(ts, rest);
      if i > 0 {
        forall x | 0 <= x < |ts + rest|
          ensures leaves[i].key <= (ts + rest)[x].key
        {
          if x >= |ts| {
            assert (ts + rest)[x] == rest[x - |ts|];
          }
        }
      }
    }
  }

  lemma ContentsSorted(s: Store, leaves: Level, cap: nat, ex: nat)
    requires LeavesOK(s, leaves, cap, ex) && SortedLevel(leaves)
    ensures SortedTuples(Contents(s, leaves))
  {
    forall x | 0 <= x < |leaves|
      ensures LeafOrdered(s, leaves, x)
    {
      assert LeafOK(s, leaves, x, cap, ex);
    }
    ContentsFrom(s, leaves, 0);
    assert leaves[0..] == leaves;
  }

  /** Keys bounded in a sequence are bounded in a rearrangement of it. */
  lemma BagBounds(ts: seq<Tuple>, ts': seq<Tuple>, key: int)
    requires multiset(ts) == multiset(ts')
    ensures AllAtLeast(ts, key) <==> AllAtLeast(ts', key)
    ensures AllAtMost(ts, key) <==> AllAtMost(ts', key)
  {
    forall i | 0 <= i < |ts|
      ensures ts[i] in ts'
    {
      assert ts[i] in multiset(ts);
      assert ts[i] in multiset(ts');
    }
    forall i | 0 <= i < |ts'|
      ensures ts'[i] in ts
    {
      assert ts'[i] in multiset(ts');
      assert ts'[i] in multiset(ts);
    }
  }

  lemma BagSize(ts: seq<Tuple>, ts': seq<Tuple>)
    requires multiset(ts) == multiset(ts')
    ensures |ts| == |ts'|
  {
    assert |multiset(ts)| == |ts| && |multiset(ts')| == |ts'|;
  }

  // ------------------------------------------------------------------ splitting a leaf

  /** Leaf p kept its neighbours and tuples. */
  ghost predicate LeafSame(s: Store, s': Store, p: nat) {
    && p in s && p in s' && s[p].LeafPage? && s'[p].LeafPage?
    && s'[p].left == s[p].left && s'[p].right == s[p].right && s'[p].tuples == s[p].tuples
  }

  /** Leaf j was cut at tuple h, its last tuples went to page r, and r was put into the
      sibling chain. */
  ghost predicate LeafCut(s: Store, s': Store, leaves: Level, j: nat, h: nat, r: nat)
    requires j < |leaves|
  {
    var p := leaves[j].child;
    && h <= |TuplesOf(s, p)|
    && p in s && s[p].LeafPage? && p in s' && s'[p].LeafPage? && r in s' && s'[r].LeafPage?
    && s'[p].left == s[p].left && s'[p].right == r && s'[p].tuples == s[p].tuples[..h]
    && s'[r].left == p && s'[r].right == s[p].right
    && SortedTuples(s'[r].tuples) && multiset(s'[r].tuples) == multiset(s[p].tuples[h..])
    && s'[r].tuples == PutAll([], Backward(s[p].tuples[h..]))
    && (j + 1 < |leaves| ==>
          var n := leaves[j + 1].child;
          && n in s && s[n].LeafPage? && n in s' && s'[n].LeafPage?
          && s'[n].left == r && s'[n].right == s[n].right && s'[n].tuples == s[n].tuples)
    && (forall i :: 0 <= i < |leaves| && i != j && i != j + 1 ==> LeafSame(s, s', leaves[i].child))
  }

  lemma CutOrdered(s: Store, s': Store, leaves: Level, j: nat, h: nat, r: nat, x: Slot, i: nat)
    requires j < |leaves| && LeafCut(s, s', leaves, j, h, r)
    requires h < |TuplesOf(s, leaves[j].child)| && x == Slot(TuplesOf(s, leaves[j].child)[h].key, r)
    requires forall y :: 0 <= y < |leaves| ==> LeafOrdered(s, leaves, y)
    requires i <= |leaves|
    ensures LeafOrdered(s', InsertAfter(leaves, j, x), i)
  {
    var leaves' := InsertAfter(leaves, j, x);
    assert LeafOrdered(s, leaves, j);
    if i == j + 1 {
      MovedOrdered(s, s', leaves, j, h, r, x);
    } else {
      var y := if i <= j then i else i - 1;
      assert leaves'[i] == leaves[y];
      assert LeafOrdered(s, leaves, y);
    }
  }

  lemma MovedOrdered(s: Store, s': Store, leaves: Level, j: nat, h: nat, r: nat, x: Slot)
    requires j < |leaves| && LeafCut(s, s', leaves, j, h, r) && LeafOrdered(s, leaves, j)
    requires h < |TuplesOf(s, leaves[j].child)| && x == Slot(TuplesOf(s, leaves[j].child)[h].key, r)
    ensures LeafOrdered(s', InsertAfter(leaves, j, x), j + 1)
  {
    var ts, moved := TuplesOf(s, leaves[j].child), s'[r].tuples;
    BagBounds(moved, ts[h..], x.key);
    if j + 1 < |leaves| {
      BagBounds(moved, ts[h..], leaves[j + 1].key);
    }
  }

  lemma CutLinks(s: Store, s': Store, leaves: Level, j: nat, h: nat, r: nat, key: int, i: nat)
    requires j < |leaves| && LeafCut(s, s', leaves, j, h, r)
    requires forall y :: 0 <= y < |leaves| ==> LeafLinked(s, leaves, y)
    requires i <= |leaves|
    ensures LeafLinked(s', InsertAfter(leaves, j, Slot(key, r)), i)
  {
    var leaves' := InsertAfter(leaves, j, Slot(key, r));
    assert LeafLinked(s, leaves, j);
    if i != j + 1 {
      var y := if i <= j then i else i - 1;
      assert leaves'[i] == leaves[y];
      assert LeafLinked(s, leaves, y);
    }
  }

  lemma CutSizes(s: Store, s': Store, leaves: Level, j: nat, r: nat, key: int, cap: nat, i: nat)
    requires j < |leaves| && cap >= 2 && |TuplesOf(s, leaves[j].child)| == cap && LeafCut(s, s', leaves, j, cap / 2, r)
    requires forall y :: 0 <= y < |leaves| ==> LeafSized(s, leaves, y, cap, 0) && leaves[y].child != 0
    requires i <= |leaves|
    ensures LeafSized(s', InsertAfter(leaves, j, Slot(key, r)), i, cap, 0)
  {
    var leaves' := InsertAfter(leaves, j, Slot(key, r));
    BagSize(s'[r].tuples, s[leaves[j].child].tuples[cap / 2..]);
    if i != j && i != j + 1 {
      var y := if i <= j then i else i - 1;
      assert leaves'[i] == leaves[y];
      assert LeafSized(s, leaves, y, cap, 0);
    }
  }

  lemma CutContents(s: Store, s': Store, leaves: Level, j: nat, h: nat, r: nat, key: int)
    requires j < |leaves| && LeafCut(s, s', leaves, j, h, r)
    ensures multiset(Contents(s', InsertAfter(leaves, j, Slot(key, r)))) == multiset(Contents(s, leaves))
  {
    hide Contents, PutAll, Backward, SortedTuples, LeafSame;
    var a, b, x := leaves[..j], leaves[j + 1..], Slot(key, r);
    var ts, kept, moved := TuplesOf(s, leaves[j].child), TuplesOf(s', leaves[j].child), TuplesOf(s', r);
    assert leaves == a + [leaves[j]] + b;
    assert InsertAfter(leaves, j, x) == a + [leaves[j], x] + b;
    ContentsThree(s, a, [leaves[j]], b);
    ContentsThree(s', a, [leaves[j], x], b);
    ContentsSingle(s, leaves[j]);
    assert [leaves[j], x] == [leaves[j]] + [x];
    ContentsAppend(s', [leaves[j]], [x]);
    ContentsSingle(s', leaves[j]);
    ContentsSingle(s', x);
    CutOutside(s, s', leaves, j, h, r, a, b);
    ContentsFrame(s, s', a);
    ContentsFrame(s, s', b);
    CutBags(Contents(s, a), ts, h, kept, moved, Contents(s, b));
  }

  lemma CutOutside(s: Store, s': Store, leaves: Level, j: nat, h: nat, r: nat, a: Level, b: Level)
    requires j < |leaves| && LeafCut(s, s', leaves, j, h, r) && a == leaves[..j] && b == leaves[j + 1..]
    ensures forall i :: 0 <= i < |a| ==> TuplesOf(s', a[i].child) == TuplesOf(s, a[i].child)
    ensures forall i :: 0 <= i < |b| ==> TuplesOf(s', b[i].child) == TuplesOf(s, b[i].child)
  {
    forall i | 0 <= i < |leaves| && i != j
      ensures TuplesOf(s', leaves[i].child) == TuplesOf(s, leaves[i].child)
    {
      assert i != j + 1 ==> LeafSame(s, s', leaves[i].child);
    }
    forall i | 0 <= i < |b|
      ensures TuplesOf(s', b[i].child) == TuplesOf(s, b[i].child)
    {
      assert b[i] == leaves[j + 1 + i];
    }
  }

  lemma CutBags(a: seq<Tuple>, ts: seq<Tuple>, h: nat, kept: seq<Tuple>, moved: seq<Tuple>, b: seq<Tuple>)
    requires h <= |ts| && kept == ts[..h] && multiset(moved) == multiset(ts[h..])
    ensures multiset(a + (kept + moved) + b) == multiset(a + ts + b)
  {
    assert ts == ts[..h] + ts[h..];
    BagTwo(ts[..h], ts[h..]);
    BagTwo(kept, moved);
    BagThree(a, ts, b);
    BagThree(a, kept + moved, b);
  }

  lemma LeafSplit(s: Store, s': Store, leaves: Level, j: nat, r: nat, key: int, cap: nat)
    requires LeavesOK(s, leaves, cap, 0) && j < |leaves| && cap >= 2
    requires forall y :: 0 <= y < |leaves| ==> leaves[y].child != 0
    requires |TuplesOf(s, leaves[j].child)| == cap && LeafCut(s, s', leaves, j, cap / 2, r)
    requires key == TuplesOf(s, leaves[j].child)[cap / 2].key
    ensures LeavesOK(s', InsertAfter(leaves, j, Slot(key, r)), cap, 0)
    ensures multiset(Contents(s', InsertAfter(leaves, j, Slot(key, r)))) == multiset(Contents(s, leaves))
  {
    CutContents(s, s', leaves, j, cap / 2, r, key);
    var leaves' := InsertAfter(leaves, j, Slot(key, r));
    forall y | 0 <= y < |leaves|
      ensures LeafOrdered(s, leaves, y) && LeafLinked(s, leaves, y) && LeafSized(s, leaves, y, cap, 0)
    {
      assert LeafOK(s, leaves, y, cap, 0);
    }
    forall i | 0 <= i < |leaves'|
      ensures LeafOK(s', leaves', i, cap, 0)
    {
      hide LeafOrdered, LeafLinked, LeafSized, LeafCut, Contents;
      CutOrdered(s, s', leaves, j, cap / 2, r, Slot(key, r), i);
      CutLinks(s, s', leaves, j, cap / 2, r, key, i);
      CutSizes(s, s', leaves, j, r, key, cap, i);
    }
  }

  // ------------------------------------------------------------------ whole trees

  /** The legal-tree conditions, for the whole tree: nothing in use is outside it.  ex is
      a leaf that may have one tuple too few. */
  ghost predicate Legal(a: State, leafCap: nat, nodeCap: nat, ex: nat) {
    && Above(a.pages, a.tree, 0, nodeCap, 0)
    && LeavesOK(a.pages, a.tree.levels[0], leafCap, ex)
    && a.inUse == a.tree.heightOf.Keys
    && 0 !in a.inUse && forall p :: p in a.inUse ==> p in a.pages
  }

  /** A page just changed in its leaf part: its kind and its parent are as before. */
  ghost predicate SameInTree(s: Store, s': Store, p: nat) {
    && p in s && p in s' && s'[p].LeafPage? == s[p].LeafPage? && s'[p].InternalPage? == s[p].InternalPage?
    && ParentOf(s', p) == ParentOf(s, p)
    && (s[p].InternalPage? ==> s'[p] == s[p])
  }

  /** The pages once leaf j, page p, is cut at tuple h and its last tuples are in r. */
  ghost predicate LeafHalved(a: State, b: State, j: nat, h: nat, r: nat)
    requires |a.tree.levels| > 0 && j < |a.tree.levels[0]|
  {
    && b.tree == a.tree && b.inUse == a.inUse + {r} && r !in a.inUse && r != 0
    && LeafCut(a.pages, b.pages, a.tree.levels[0], j, h, r)
    && 0 in a.pages && 0 in b.pages && b.pages[0] == a.pages[0]
    && forall p :: p in a.inUse ==> SameInTree(a.pages, b.pages, p)
  }

  /** The steps of splitLeafPage before the parent is looked for: the last tuples of page
      p are in the new page r, between p and the page after it. */
  ghost predicate LeafShared(a: State, s': Store, p: nat, h: nat, r: nat) {
    && r !in a.inUse && r != 0 && p in a.inUse
    && 0 in a.pages && 0 in s' && s'[0] == a.pages[0]
    && (forall x :: x in a.inUse ==> x in a.pages && x in s')
    && a.pages[p].LeafPage? && h <= |a.pages[p].tuples|
    && s'[p] == a.pages[p].(right := r, tuples := a.pages[p].tuples[..h])
    && r in s' && s'[r] == LeafPage(0, p, a.pages[p].right, TuplesOf(s', r))
    && SortedTuples(s'[r].tuples) && multiset(s'[r].tuples) == multiset(a.pages[p].tuples[h..])
    && s'[r].tuples == PutAll([], Backward(a.pages[p].tuples[h..]))
    && var next := a.pages[p].right;
       && (next != 0 ==> next in a.inUse && next != p && a.pages[next].LeafPage? && s'[next] == a.pages[next].(left := r))
       && forall x :: x in a.inUse && x != p && x != next ==> s'[x] == a.pages[x]
  }

  /** The new page r was put into the sibling chain after page p. */
  ghost predicate LeafLinkedIn(a: State, s': Store, p: nat, r: nat) {
    && r !in a.inUse && r != 0 && p in a.inUse
    && 0 in a.pages && 0 in s' && s'[0] == a.pages[0]
    && (forall x :: x in a.inUse ==> x in a.pages && x in s')
    && a.pages[p].LeafPage?
    && s'[p] == a.pages[p].(right := r)
    && r in s' && s'[r] == LeafPage(0, p, a.pages[p].right, [])
    && var next := a.pages[p].right;
       && (next != 0 ==> next in a.inUse && next != p && a.pages[next].LeafPage? && s'[next] == a.pages[next].(left := r))
       && forall x :: x in a.inUse && x != p && x != next ==> s'[x] == a.pages[x]
  }

  /** The new leaf r was put into the chain, by changing it, page p and the page after p. */
  lemma LeafLinkedNow(a: State, s: Store, s': Store, p: nat, r: nat)
    requires r !in a.inUse && r != 0 && p in a.inUse && p in s && s[p].LeafPage? && r in s && s[r] == LeafPage(0, 0, 0, [])
    requires 0 !in a.inUse && 0 in a.pages && 0 in s && s[0] == a.pages[0]
    requires forall x :: x in a.inUse ==> x in a.pages && x in s && s[x] == a.pages[x]
    requires var next := s[p].right;
             && (next != 0 ==> next in a.inUse && next != p && s[next].LeafPage?)
             && s' == (if next == 0 then s else s[next := s[next].(left := r)])[r := s[r].(right := next, left := p)][p := s[p].(right := r)]
    ensures LeafLinkedIn(a, s', p, r)
  {
  }

  lemma LinkedInPages(a: State, s': Store, p: nat, r: nat)
    requires LeafLinkedIn(a, s', p, r)
    ensures r != p && p in a.pages && {p, r} <= s'.Keys && s'[r].LeafPage? && s'[r].tuples == []
    ensures a.pages[p].LeafPage? && s'[p] == a.pages[p].(right := r)
  {
  }

  lemma LeafSharedNow(a: State, s1: Store, s2: Store, p: nat, h: nat, r: nat)
    requires LeafLinkedIn(a, s1, p, r) && TuplesMoved(s1, s2, p, h, r)
    requires 0 !in a.inUse
    ensures LeafShared(a, s2, p, h, r)
  {
    assert multiset(s1[r].tuples) == multiset{};
  }

  lemma LeafPlace(a: State, leafCap: nat, nodeCap: nat, ex: nat, j: nat)
    requires Legal(a, leafCap, nodeCap, ex) && j < |a.tree.levels[0]|
    ensures var p := a.tree.levels[0][j].child;
            && p != 0 && p in a.inUse && p in a.pages && a.pages[p].LeafPage?
            && a.pages[p].left == (if j > 0 then a.tree.levels[0][j - 1].child else 0)
            && a.pages[p].right == (if j + 1 < |a.tree.levels[0]| then a.tree.levels[0][j + 1].child else 0)
            && SortedTuples(a.pages[p].tuples) && |a.pages[p].tuples| <= leafCap
    ensures NoDup(a.tree.levels[0])
    ensures forall i :: 0 <= i < |a.tree.levels[0]| ==>
              && a.tree.levels[0][i].child in a.inUse && a.tree.levels[0][i].child in a.pages
              && a.pages[a.tree.levels[0][i].child].LeafPage?
  {
    assert LeafOK(a.pages, a.tree.levels[0], j, leafCap, ex);
    forall i | 0 <= i < |a.tree.levels[0]|
      ensures && a.tree.levels[0][i].child in a.inUse && a.tree.levels[0][i].child in a.pages
              && a.pages[a.tree.levels[0][i].child].LeafPage?
    {
      LevelHeight(a.tree, 0, i);
    }
  }

  /** A leaf and the leaf after it. */
  lemma LeafNext(a: State, leafCap: nat, nodeCap: nat, ex: nat, j: nat)
    requires Legal(a, leafCap, nodeCap, ex) && j < |a.tree.levels[0]|
    ensures var p := a.tree.levels[0][j].child;
            && p != 0 && p in a.inUse && p in a.pages && a.pages[p].LeafPage?
            && var next := a.pages[p].right;
               next != 0 ==> next != p && next in a.inUse && next in a.pages && a.pages[next].LeafPage?
  {
    LeafPlace(a, leafCap, nodeCap, ex, j);
    hide Legal;
  }

  lemma LeafHalvedBuilt(a: State, b: State, leafCap: nat, nodeCap: nat, j: nat, p: nat, h: nat, r: nat)
    requires Legal(a, leafCap, nodeCap, 0) && j < |a.tree.levels[0]| && p == a.tree.levels[0][j].child
    requires LeafShared(a, b.pages, p, h, r) && b.tree == a.tree && b.inUse == a.inUse + {r}
    ensures LeafHalved(a, b, j, h, r)
  {
    hide PutAll, Backward, SortedTuples;
    LeafPlace(a, leafCap, nodeCap, 0, j);
    hide Above, LeavesOK;
    var leaves := a.tree.levels[0];
    forall i | 0 <= i < |leaves| && i != j && i != j + 1
      ensures LeafSame(a.pages, b.pages, leaves[i].child)
    {
      assert leaves[i].child != p;
      assert j + 1 < |leaves| ==> leaves[i].child != leaves[j + 1].child;
    }
  }

  /** The tuples of page p from h on were moved to page r, each to its place. */
  ghost predicate TuplesMoved(s: Store, s': Store, p: nat, h: nat, r: nat) {
    && p in s && s[p].LeafPage? && h <= |s[p].tuples| && r in s && s[r].LeafPage? && r != p
    && PairChanged(s, s', p, s[p].(tuples := s[p].tuples[..h]), r, s[r].(tuples := TuplesOf(s', r)))
    && SortedTuples(s'[r].tuples) && multiset(s'[r].tuples) == multiset(s[r].tuples) + multiset(s[p].tuples[h..])
    && s'[r].tuples == PutAll(s[r].tuples, Backward(s[p].tuples[h..]))
  }

  lemma NoTupleMoved(s: Store, p: nat, r: nat)
    requires p in s && s[p].LeafPage? && r in s && s[r].LeafPage? && r != p && SortedTuples(s[r].tuples)
    ensures TuplesMoved(s, s, p, |s[p].tuples|, r)
  {
    assert s[p].tuples[..|s[p].tuples|] == s[p].tuples;
  }

  /** One more tuple is moved. */
  lemma TupleMoved(s: Store, s1: Store, s2: Store, p: nat, h: nat, r: nat)
    requires TuplesMoved(s, s1, p, h, r) && h > 0
    requires p in s1 && r in s1 && s1[p].LeafPage? && s1[r].LeafPage? && |s1[p].tuples| == h
    requires PairChanged(s1, s2, p, s1[p].(tuples := s1[p].tuples[..h - 1]),
                         r, s1[r].(tuples := SortedInsert(s1[r].tuples, s1[p].tuples[h - 1])))
    ensures TuplesMoved(s, s2, p, h - 1, r)
  {
    hide SortedInsert, SortedTuples, PutAll, Backward;
    var ts := s[p].tuples;
    OneMoreFromBack(s[r].tuples, s1[r].tuples, ts, h);
    assert ts[..h][..h - 1] == ts[..h - 1];
  }

  lemma OneMoreFromBack(us: seq<Tuple>, vs: seq<Tuple>, ts: seq<Tuple>, h: nat)
    requires 0 < h <= |ts| && SortedTuples(vs)
    requires multiset(vs) == multiset(us) + multiset(ts[h..]) && vs == PutAll(us, Backward(ts[h..]))
    ensures SortedTuples(SortedInsert(vs, ts[h - 1]))
    ensures multiset(SortedInsert(vs, ts[h - 1])) == multiset(us) + multiset(ts[h - 1..])
    ensures SortedInsert(vs, ts[h - 1]) == PutAll(us, Backward(ts[h - 1..]))
  {
    hide SortedInsert, SortedTuples, PutAll, Backward;
    SortedInsertSorted(vs, ts[h - 1]);
    SortedInsertElements(vs, ts[h - 1]);
    assert ts[h - 1..] == [ts[h - 1]] + ts[h..];
    BackwardNext(ts, h);
    PutNext(us, Backward(ts[h..]), ts[h - 1]);
  }

  lemma MovedSizes(s: Store, s': Store, p: nat, h: nat, r: nat)
    requires TuplesMoved(s, s', p, h, r)
    ensures {p, r} <= s.Keys && {p, r} <= s'.Keys && s'[p].LeafPage? && s'[r].LeafPage?
    ensures |s'[p].tuples| == h && s[p].LeafPage? && h <= |s[p].tuples| && s'[p].tuples == s[p].tuples[..h]
    ensures s[r].LeafPage? && |s'[r].tuples| == |s[r].tuples| + |s[p].tuples| - h
    ensures s'[r].tuples == PutAll(s[r].tuples, Backward(s[p].tuples[h..]))
  {
    MovedCount(s'[r].tuples, s[r].tuples, s[p].tuples[h..]);
  }

  lemma MovedCount(ts: seq<Tuple>, us: seq<Tuple>, vs: seq<Tuple>)
    requires multiset(ts) == multiset(us) + multiset(vs)
    ensures |ts| == |us| + |vs|
  {
    assert |multiset(ts)| == |ts| && |multiset(us)| == |us| && |multiset(vs)| == |vs|;
  }

  /** The first h tuples of page p were moved to page l, each to its place. */
  ghost predicate FrontMoved(s: Store, s': Store, p: nat, h: nat, l: nat) {
    && p in s && s[p].LeafPage? && h <= |s[p].tuples| && l in s && s[l].LeafPage? && l != p
    && PairChanged(s, s', p, s[p].(tuples := s[p].tuples[h..]), l, s[l].(tuples := TuplesOf(s', l)))
    && SortedTuples(s'[l].tuples) && multiset(s'[l].tuples) == multiset(s[l].tuples) + multiset(s[p].tuples[..h])
    && s'[l].tuples == PutAll(s[l].tuples, s[p].tuples[..h])
  }

  lemma NoFrontMoved(s: Store, p: nat, l: nat)
    requires p in s && s[p].LeafPage? && l in s && s[l].LeafPage? && l != p && SortedTuples(s[l].tuples)
    ensures FrontMoved(s, s, p, 0, l)
  {
  }

  lemma FrontMovedOn(s: Store, s1: Store, s2: Store, p: nat, h: nat, l: nat)
    requires FrontMoved(s, s1, p, h, l) && h < |TuplesOf(s, p)|
    requires p in s1 && l in s1 && s1[p].LeafPage? && s1[l].LeafPage? && s1[p].tuples != []
    requires PairChanged(s1, s2, p, s1[p].(tuples := s1[p].tuples[1..]),
                         l, s1[l].(tuples := SortedInsert(s1[l].tuples, s1[p].tuples[0])))
    ensures FrontMoved(s, s2, p, h + 1, l)
  {
    hide SortedInsert, SortedTuples, PutAll;
    var ts := s[p].tuples;
    OneMoreFromFront(s[l].tuples, s1[l].tuples, ts, h);
    assert ts[h..][1..] == ts[h + 1..];
  }

  lemma OneMoreFromFront(us: seq<Tuple>, vs: seq<Tuple>, ts: seq<Tuple>, h: nat)
    requires h < |ts| && SortedTuples(vs)
    requires multiset(vs) == multiset(us) + multiset(ts[..h]) && vs == PutAll(us, ts[..h])
    ensures SortedTuples(SortedInsert(vs, ts[h]))
    ensures multiset(SortedInsert(vs, ts[h])) == multiset(us) + multiset(ts[..h + 1])
    ensures SortedInsert(vs, ts[h]) == PutAll(us, ts[..h + 1])
  {
    hide SortedInsert, SortedTuples, PutAll;
    SortedInsertSorted(vs, ts[h]);
    SortedInsertElements(vs, ts[h]);
    assert ts[..h + 1] == ts[..h] + [ts[h]];
    PutNext(us, ts[..h], ts[h]);
  }

  lemma FrontMovedSizes(s: Store, s': Store, p: nat, h: nat, l: nat)
    requires FrontMoved(s, s', p, h, l)
    ensures {p, l} <= s.Keys && {p, l} <= s'.Keys && s'[p].LeafPage? && s'[l].LeafPage?
    ensures s[p].LeafPage? && h <= |s[p].tuples| && s'[p].tuples == s[p].tuples[h..]
    ensures s[l].LeafPage? && |s'[l].tuples| == |s[l].tuples| + h
    ensures s'[l].tuples == PutAll(s[l].tuples, s[p].tuples[..h])
  {
    MovedCount(s'[l].tuples, s[l].tuples, s[p].tuples[..h]);
  }

  lemma LeafHalvedAbove(a: State, b: State, leafCap: nat, nodeCap: nat, j: nat, h: nat, r: nat)
    requires Legal(a, leafCap, nodeCap, 0) && j < |a.tree.levels[0]| && LeafHalved(a, b, j, h, r)
    ensures Above(b.pages, b.tree, 0, nodeCap, 0) && AboveSame(a.pages, b.pages, a.tree, 0)
  {
    assert Typed(a.pages, a.tree);
    assert Rooted(a.pages, a.tree);
    hide Above, LeafCut;
    assert AboveSame(a.pages, b.pages, a.tree, 0);
    AboveFrame(a.pages, b.pages, a.tree, 0, nodeCap, 0);
  }

  lemma CutKeyFits(s: Store, leaves: Level, j: nat, h: nat, cap: nat)
    requires LeavesOK(s, leaves, cap, 0) && j < |leaves| && h < |TuplesOf(s, leaves[j].child)|
    ensures j > 0 ==> leaves[j].key <= TuplesOf(s, leaves[j].child)[h].key
    ensures j + 1 < |leaves| ==> TuplesOf(s, leaves[j].child)[h].key <= leaves[j + 1].key
  {
    assert LeafOK(s, leaves, j, cap, 0);
  }

  lemma SplitLeafPrepared(a: State, b: State, leafCap: nat, nodeCap: nat, j: nat, h: nat, p: nat, r: nat, key: int, fuel: nat)
    requires Legal(a, leafCap, nodeCap, 0) && nodeCap >= 3
    requires j < |a.tree.levels[0]| && p == a.tree.levels[0][j].child && h < |TuplesOf(a.pages, p)|
    requires LeafHalved(a, b, j, h, r) && key == TuplesOf(a.pages, p)[h].key
    ensures Adding(b, 0, nodeCap, j, key, p, r)
    ensures WouldTie(b.pages, p, key, nodeCap, fuel) == WouldTie(a.pages, p, key, nodeCap, fuel)
  {
    LeafHalvedAbove(a, b, leafCap, nodeCap, j, h, r);
    CutKeyFits(a.pages, a.tree.levels[0], j, h, leafCap);
    hide Above, AboveSame, WouldTie, LeavesOK;
    WouldTieFrame(a.pages, b.pages, a.tree, 0, nodeCap, j, key, fuel);
  }

  /** Leaf p after it was cut: its first tuples, and on its new right neighbour the others. */
  ghost predicate InTwo(a: State, b: State, p: nat, leafCap: nat, r: nat) {
    var ts := TuplesOf(a.pages, p);
    && |ts| == leafCap && r !in a.inUse
    && p in b.pages && b.pages[p].LeafPage? && b.pages[p].right == r
    && TuplesOf(b.pages, p) == ts[..leafCap / 2] && TuplesOf(b.pages, r) == PutAll([], Backward(ts[leafCap / 2..]))
  }

  lemma LeafInTwo(a: State, b: State, p: nat, leafCap: nat, j: nat, r: nat)
    requires a.tree.levels != [] && j < |a.tree.levels[0]| && a.tree.levels[0][j].child == p
    requires LeafCut(a.pages, b.pages, a.tree.levels[0], j, leafCap / 2, r) && r !in a.inUse
    requires |TuplesOf(a.pages, p)| == leafCap
    ensures InTwo(a, b, p, leafCap, r)
    ensures forall x :: 0 <= x < |a.tree.levels[0]| && x != j ==>
              TuplesOf(b.pages, a.tree.levels[0][x].child) == TuplesOf(a.pages, a.tree.levels[0][x].child)
  {
    hide PutAll, Backward, SortedTuples, LeafSame;
    var leaves := a.tree.levels[0];
    CutOutside(a.pages, b.pages, leaves, j, leafCap / 2, r, leaves[..j], leaves[j + 1..]);
    assert forall x :: 0 <= x < j ==> leaves[..j][x] == leaves[x];
    assert forall x :: j < x < |leaves| ==> leaves[j + 1..][x - j - 1] == leaves[x];
  }

  /** Leaf i is the one whose separators guide to the key. */
  ghost predicate PlaceFor(t: Tree, i: nat, key: int) {
    && t.levels != [] && i < |t.levels[0]|
    && (forall x :: 1 <= x <= i ==> t.levels[0][x].key < key)
    && (forall x :: i < x < |t.levels[0]| ==> key <= t.levels[0][x].key)
  }

  /** Leaf i had room, or it was cut in two and the half where the key belongs is chosen. */
  ghost predicate LeafMade(a: State, b: State, leafCap: nat, i: nat, chosen: nat, key: int)
    requires a.tree.levels != [] && i < |a.tree.levels[0]|
  {
    var leaves, p := a.tree.levels[0], a.tree.levels[0][i].child;
    var ts := TuplesOf(a.pages, p);
    if |ts| != leafCap then b == a && chosen == p
    else
      && p in b.pages && b.pages[p].LeafPage? && b.pages[p].right !in a.inUse && InTwo(a, b, p, leafCap, b.pages[p].right)
      && leafCap > 0 && chosen == (if key < ts[leafCap / 2].key then p else b.pages[p].right)
      && b.tree.levels != [] && b.tree.levels[0] == InsertAfter(leaves, i, Slot(ts[leafCap / 2].key, b.pages[p].right))
      && forall x :: 0 <= x < |leaves| && x != i ==> TuplesOf(b.pages, leaves[x].child) == TuplesOf(a.pages, leaves[x].child)
  }

  lemma PlaceForIs(t: Tree, i: nat, key: int)
    requires PlaceFor(t, i, key)
    ensures t.levels != [] && i < |t.levels[0]|
    ensures forall x :: 1 <= x <= i ==> t.levels[0][x].key < key
    ensures forall x :: i < x < |t.levels[0]| ==> key <= t.levels[0][x].key
  {
  }

  /** Page chosen takes the tuple. */
  ghost predicate Took(b: State, c: State, chosen: nat, t: Tuple) {
    && chosen in b.pages && b.pages[chosen].LeafPage? && c.tree == b.tree
    && c.pages == b.pages[chosen := b.pages[chosen].(tuples := SortedInsert(b.pages[chosen].tuples, t))]
  }

  lemma TakenWithRoom(a: State, b: State, c: State, leafCap: nat, nodeCap: nat, i: nat, chosen: nat, t: Tuple)
    requires Legal(a, leafCap, nodeCap, 0) && i < |a.tree.levels[0]|
    requires LeafMade(a, b, leafCap, i, chosen, t.key) && Took(b, c, chosen, t)
    ensures var p := a.tree.levels[0][i].child;
            var ts := TuplesOf(a.pages, p);
            && p in a.pages && a.pages[p].LeafPage? && |ts| <= leafCap
            && (|ts| < leafCap ==>
                  && b == a && chosen == p && c.tree == a.tree
                  && c.pages == a.pages[p := a.pages[p].(tuples := SortedInsert(ts, t))])
  {
    hide SortedInsert, PutAll, Backward, InsertAfter;
    LeafPlace(a, leafCap, nodeCap, 0, i);
  }

  lemma TakenByHalf(a: State, b: State, c: State, leafCap: nat, nodeCap: nat, i: nat, chosen: nat, t: Tuple)
    requires Legal(a, leafCap, nodeCap, 0) && i < |a.tree.levels[0]|
    requires LeafMade(a, b, leafCap, i, chosen, t.key) && Took(b, c, chosen, t)
    ensures |TuplesOf(a.pages, a.tree.levels[0][i].child)| == leafCap ==>
            var p, h := a.tree.levels[0][i].child, leafCap / 2;
            var ts := TuplesOf(a.pages, p);
            && leafCap > 0 && p in c.pages && c.pages[p].LeafPage? && c.tree.levels != []
            && var r := c.pages[p].right;
               && r !in a.inUse
               && c.tree.levels[0] == InsertAfter(a.tree.levels[0], i, Slot(ts[h].key, r))
               && TuplesOf(c.pages, p) == (if t.key < ts[h].key then SortedInsert(ts[..h], t) else ts[..h])
               && TuplesOf(c.pages, r) == (if t.key < ts[h].key then PutAll([], Backward(ts[h..]))
                                           else SortedInsert(PutAll([], Backward(ts[h..])), t))
  {
    hide SortedInsert, PutAll, Backward, InsertAfter;
    LeafPlace(a, leafCap, nodeCap, 0, i);
  }

  lemma TakenNowhereElse(a: State, b: State, c: State, leafCap: nat, nodeCap: nat, i: nat, chosen: nat, t: Tuple)
    requires Legal(a, leafCap, nodeCap, 0) && i < |a.tree.levels[0]|
    requires LeafMade(a, b, leafCap, i, chosen, t.key) && Took(b, c, chosen, t)
    ensures forall x :: 0 <= x < |a.tree.levels[0]| && x != i ==>
              TuplesOf(c.pages, a.tree.levels[0][x].child) == TuplesOf(a.pages, a.tree.levels[0][x].child)
  {
    hide SortedInsert, PutAll, Backward, InsertAfter;
    LeafPlace(a, leafCap, nodeCap, 0, i);
  }

  lemma HalvedInTwo(a: State, b: State, p: nat, leafCap: nat, j: nat, r: nat)
    requires a.tree.levels != [] && j < |a.tree.levels[0]| && a.tree.levels[0][j].child == p
    requires LeafHalved(a, b, j, leafCap / 2, r) && |TuplesOf(a.pages, p)| == leafCap
    ensures InTwo(a, b, p, leafCap, r)
  {
    LeafInTwo(a, b, p, leafCap, j, r);
  }

  lemma LeafCutKept(s: Store, a: State, b: State, leaves: Level, j: nat, h: nat, r: nat)
    requires |a.tree.levels| > 0 && leaves == a.tree.levels[0] && Placed(a.tree) && j < |leaves|
    requires LeafCut(s, a.pages, leaves, j, h, r)
    requires r in a.inUse && r !in a.tree.heightOf && Progress(a, b, 0, r)
    ensures LeafCut(s, b.pages, leaves, j, h, r)
  {
    forall i | 0 <= i < |leaves|
      ensures leaves[i].child in a.pages && leaves[i].child in b.pages
      ensures SameButParent(a.pages[leaves[i].child], b.pages[leaves[i].child])
    {
      LevelHeight(a.tree, 0, i);
    }
    forall i | 0 <= i < |leaves| && i != j && i != j + 1
      ensures LeafSame(s, b.pages, leaves[i].child)
    {
      assert LeafSame(s, a.pages, leaves[i].child);
    }
  }

  lemma NothingLoose(a: State, b: State, k: nat, r: nat)
    requires Progress(a, b, k, r) && r in b.tree.heightOf
    requires forall p :: Loose(a, p) ==> p == r
    ensures b.inUse == b.tree.heightOf.Keys
  {
    forall p | p in b.inUse
      ensures p in b.tree.heightOf
    {
      assert p != r ==> (Loose(a, p) <==> Loose(b, p));
    }
  }

  /** splitLeafPage is done: the tree is legal and holds the same tuples. */
  lemma SplitLeafFinish(a: State, a1: State, b: State, leafCap: nat, nodeCap: nat, j: nat, p: nat, r: nat, key: int)
    requires Legal(a, leafCap, nodeCap, 0) && leafCap >= 2
    requires j < |a.tree.levels[0]| && p == a.tree.levels[0][j].child && |TuplesOf(a.pages, p)| == leafCap
    requires LeafHalved(a, a1, j, leafCap / 2, r) && key == TuplesOf(a.pages, p)[leafCap / 2].key
    requires Added(a1, b, 0, nodeCap, j, key, r)
    requires 0 !in b.inUse && forall x :: x in b.inUse ==> x in b.pages
    ensures Legal(b, leafCap, nodeCap, 0)
    ensures b.tree.levels[0] == InsertAfter(a.tree.levels[0], j, Slot(key, r))
    ensures multiset(Contents(b.pages, b.tree.levels[0])) == multiset(Contents(a.pages, a.tree.levels[0]))
    ensures LeafCut(a.pages, b.pages, a.tree.levels[0], j, leafCap / 2, r)
  {
    var leaves := a.tree.levels[0];
    assert Placed(a.tree) && Typed(a.pages, a.tree);
    forall y | 0 <= y < |leaves|
      ensures leaves[y].child != 0
    {
      LevelHeight(a.tree, 0, y);
    }
    LeafCutKept(a.pages, a1, b, leaves, j, leafCap / 2, r);
    NothingLoose(a1, b, 0, r);
    hide Above, Progress, LeafCut, LeavesOK;
    LeafSplit(a.pages, b.pages, leaves, j, r, key, leafCap);
  }

  // ------------------------------------------------------------------ searching

  /** Node j of a level is where a search for f goes: the separators up to j are below f,
      those after it are not.  Without a key the search goes to the first node. */
  ghost predicate Guides(level: Level, j: nat, f: Option<int>) {
    match f
    case None => j == 0
    case Some(key) =>
      && (forall i :: 1 <= i <= j && i < |level| ==> level[i].key < key)
      && (forall i :: j < i < |level| ==> key <= level[i].key)
  }

  /** Where the search goes in the level below: child c, the last whose key is below f. */
  lemma GuidesDown(s: Store, t: Tree, k: nat, cap: nat, u: nat, c: nat, f: Option<int>)
    requires k + 1 < |t.levels| && Linked(s, t.levels[k + 1], t.levels[k]) && SortedLevel(t.levels[k])
    requires Filled(s, t, k + 1, cap, 0)
    requires u < |t.levels[k + 1]| && c < |SlotsOf(s, t.levels[k + 1][u].child)|
    requires Guides(t.levels[k + 1], u, f)
    requires f == None ==> c == 0
    requires var slots := SlotsOf(s, t.levels[k + 1][u].child);
             f.Some? ==> (c > 0 ==> slots[c].key < f.value) && (c + 1 < |slots| ==> f.value <= slots[c + 1].key)
    ensures Offset(s, t.levels[k + 1], u) + c < |t.levels[k]|
    ensures Guides(t.levels[k], Offset(s, t.levels[k + 1], u) + c, f)
  {
    hide Expand, Offset, Parented, Filled;
    var up, down := t.levels[k + 1], t.levels[k];
    var j := Offset(s, up, u) + c;
    KidNeighbours(s, up, down, u, c);
    NoOffset(s, up);
    if f.Some? {
      if c == 0 && u > 0 {
        ChildAt(s, up, u, 0);
      }
      if c + 1 == |SlotsOf(s, up[u].child)| {
        OffsetNext(s, up, u);
        if u + 1 < |up| {
          SlotsNonEmpty(s, t, k + 1, cap, 0);
          ChildAt(s, up, u + 1, 0);
        } else {
          AllOffset(s, up);
        }
      }
    }
  }

  lemma AllOffset(s: Store, up: Level)
    ensures Offset(s, up, |up|) == |Expand(s, up)|
  {
    assert up[..|up|] == up;
  }

  lemma NoOffset(s: Store, up: Level)
    ensures Offset(s, up, 0) == 0
  {
  }

  /** What a search result means for the tuples: only the leaf found, and those after it
      can hold f as their first tuples. */
  lemma FoundLeaf(s: Store, leaves: Level, cap: nat, i: nat, key: int)
    requires LeavesOK(s, leaves, cap, 0) && SortedLevel(leaves) && i < |leaves| && Guides(leaves, i, Some(key))
    ensures forall x, y :: 0 <= x < i && 0 <= y < |TuplesOf(s, leaves[x].child)| ==>
              TuplesOf(s, leaves[x].child)[y].key < key
    ensures forall x, y :: i < x < |leaves| && 0 <= y < |TuplesOf(s, leaves[x].child)| ==>
              key <= TuplesOf(s, leaves[x].child)[y].key
  {
    forall x, y | 0 <= x < i && 0 <= y < |TuplesOf(s, leaves[x].child)|
      ensures TuplesOf(s, leaves[x].child)[y].key < key
    {
      assert LeafOK(s, leaves, x, cap, 0);
      assert TuplesOf(s, leaves[x].child)[y].key <= leaves[x + 1].key;
    }
    forall x, y | i < x < |leaves| && 0 <= y < |TuplesOf(s, leaves[x].child)|
      ensures key <= TuplesOf(s, leaves[x].child)[y].key
    {
      assert LeafOK(s, leaves, x, cap, 0);
      assert leaves[x].key <= TuplesOf(s, leaves[x].child)[y].key;
    }
  }

  lemma {:induction false} AboveAt(s: Store, t: Tree, k: nat, cap: nat)
    requires Above(s, t, 0, cap, 0) && k < |t.levels|
    ensures Above(s, t, k, cap, 0)
  {
    if k > 0 {
      AboveAt(s, t, k - 1, cap);
      AboveUp(s, t, k - 1, cap);
    }
  }

  /** A search for f has come to page p, node j of level k. */
  ghost predicate Searching(s: Store, t: Tree, cap: nat, k: nat, j: nat, p: nat, category: PageType, f: Option<int>) {
    && Above(s, t, 0, cap, 0) && k < |t.levels| && j < |t.levels[k]| && t.levels[k][j].child == p
    && category == (if k == 0 then Leaf else Internal)
    && Guides(t.levels[k], j, f)
  }

  /** Page p is leaf i, where a search for f ends. */
  ghost predicate Found(t: Tree, i: nat, p: nat, f: Option<int>) {
    && |t.levels| > 0 && i < |t.levels[0]| && t.levels[0][i].child == p
    && Guides(t.levels[0], i, f)
  }

  /** Separators up to leaf i are below the key, those after it are not. */
  lemma FoundBetween(t: Tree, i: nat, p: nat, f: Option<int>)
    requires Found(t, i, p, f)
    ensures |t.levels| > 0 && i < |t.levels[0]| && t.levels[0][i].child == p && (f == None ==> i == 0)
    ensures f.Some? ==> forall x :: 1 <= x <= i ==> t.levels[0][x].key < f.value
    ensures f.Some? ==> forall x :: i < x < |t.levels[0]| ==> f.value <= t.levels[0][x].key
  {
  }

  /** The pages a search comes by. */
  lemma SearchPage(s: Store, t: Tree, cap: nat, k: nat, j: nat, p: nat, category: PageType, f: Option<int>)
    requires Searching(s, t, cap, k, j, p, category, f)
    ensures p in s && k < |t.levels| && j < |t.levels[k]|
    ensures category == Leaf || category == Internal
    ensures category == Leaf ==> k == 0 && s[p].LeafPage? && Found(t, j, p, f)
    ensures category != Leaf ==> k > 0 && s[p].InternalPage? && 2 <= |s[p].slots|
  {
    LevelHeight(t, k, j);
    if k > 0 {
      AboveAt(s, t, k - 1, cap);
      NodeFacts(s, t, k - 1, cap, p);
    }
  }

  lemma SearchLevel(s: Store, t: Tree, cap: nat, k: nat, j: nat, p: nat)
    requires Above(s, t, 0, cap, 0) && k + 1 < |t.levels| && j < |t.levels[k + 1]| && t.levels[k + 1][j].child == p
    ensures Above(s, t, k, cap, 0) && SortedLevel(t.levels[k])
    ensures Linked(s, t.levels[k + 1], t.levels[k]) && Filled(s, t, k + 1, cap, 0)
    ensures p in s && s[p].InternalPage? && s[p].childCategory == (if k == 0 then Leaf else Internal)
  {
    AboveAt(s, t, k, cap);
    LevelHeight(t, k + 1, j);
    NodeFacts(s, t, k, cap, p);
    assert LevelOK(s, t, k + 1, cap, 0);
  }

  /** The search goes on in child c. */
  lemma SearchStep(s: Store, t: Tree, cap: nat, k: nat, j: nat, p: nat, f: Option<int>, c: nat)
    requires Searching(s, t, cap, k + 1, j, p, Internal, f)
    requires c < |SlotsOf(s, p)| && (f == None ==> c == 0)
    requires f.Some? ==> forall e :: 1 <= e <= c ==> SlotsOf(s, p)[e].key < f.value
    requires f.Some? && c + 1 < |SlotsOf(s, p)| ==> f.value <= SlotsOf(s, p)[c + 1].key
    ensures p in s && s[p].InternalPage?
    ensures Searching(s, t, cap, k, Offset(s, t.levels[k + 1], j) + c, SlotsOf(s, p)[c].child, s[p].childCategory, f)
  {
    hide Above, SortedLevel, Guides, Offset, Linked, Filled;
    SearchLevel(s, t, cap, k, j, p);
    GuidesDown(s, t, k, cap, j, c, f);
    ChildHeight(s, t, k, cap, 0, j, c);
  }

  /** The child findLeafPage goes to, from entry e on. */
  lemma {:induction false} ChildForIs(slots: seq<Slot>, f: Option<int>, e: nat, c: nat)
    requires 1 <= e <= c + 1 <= |slots| && (f == None ==> c == 0)
    requires f.Some? ==> forall x :: e <= x <= c ==> slots[x].key < f.value
    requires f.Some? && c + 1 < |slots| ==> f.value <= slots[c + 1].key
    ensures ChildFor(slots, f, e) == c
    decreases c - e
  {
    if e <= c {
      ChildForIs(slots, f, e + 1, c);
    }
  }

  function ChildFor(slots: seq<Slot>, f: Option<int>, e: nat): (c: nat)
    requires 1 <= e <= |slots|
    ensures c < |slots|
    decreases |slots| - e
  {
    if e == |slots| then e - 1
    else if f == None || f.value <= slots[e].key then e - 1
    else ChildFor(slots, f, e + 1)
  }

  /** The leaf a search from page p comes to; fuel bounds the levels below p. */
  function LeafFor(s: Store, p: nat, f: Option<int>, fuel: nat): nat
    decreases fuel
  {
    var slots := SlotsOf(s, p);
    if fuel == 0 || slots == [] then p
    else LeafFor(s, slots[ChildFor(slots, f, 1)].child, f, fuel - 1)
  }

  /** The pages that search fetches: page p, the child it goes to, and so on to the leaf. */
  function WayFor(s: Store, p: nat, f: Option<int>, fuel: nat): (r: set<nat>)
    ensures p in r && LeafFor(s, p, f, fuel) in r
    ensures SlotsOf(s, p) == [] ==> r == {p}
    decreases fuel
  {
    var slots := SlotsOf(s, p);
    if fuel == 0 || slots == [] then {p}
    else {p} + WayFor(s, slots[ChildFor(slots, f, 1)].child, f, fuel - 1)
  }

  // ------------------------------------------------------------------ anchored separators

  /** Every separator is the first key of the leaf on its right, as it is until a tuple is
      deleted. */
  ghost predicate AnchoredAt(s: Store, leaves: Level, i: nat)
    requires i < |leaves|
  {
    i > 0 ==> TuplesOf(s, leaves[i].child) != [] && TuplesOf(s, leaves[i].child)[0].key == leaves[i].key
  }

  ghost predicate Anchored(s: Store, leaves: Level) {
    forall i :: 0 <= i < |leaves| ==> AnchoredAt(s, leaves, i)
  }

  lemma CutAnchored(s: Store, s': Store, leaves: Level, j: nat, h: nat, r: nat, x: Slot)
    requires j < |leaves| && LeafCut(s, s', leaves, j, h, r) && Anchored(s, leaves)
    requires 0 < h < |TuplesOf(s, leaves[j].child)| && x == Slot(TuplesOf(s, leaves[j].child)[h].key, r)
    requires SortedTuples(TuplesOf(s, leaves[j].child))
    ensures Anchored(s', InsertAfter(leaves, j, x))
  {
    var leaves' := InsertAfter(leaves, j, x);
    var ts, moved := TuplesOf(s, leaves[j].child), TuplesOf(s', r);
    forall i | 0 <= i < |leaves'|
      ensures AnchoredAt(s', leaves', i)
    {
      if i == j + 1 {
        SmallestFirst(moved, ts[h..]);
      } else {
        var y := if i <= j then i else i - 1;
        assert leaves'[i] == leaves[y] && AnchoredAt(s, leaves, y);
        assert y != j && y != j + 1 ==> LeafSame(s, s', leaves[y].child);
      }
    }
  }

  /** Two sorted arrangements of the same tuples start with the same key. */
  lemma SmallestFirst(ts: seq<Tuple>, us: seq<Tuple>)
    requires SortedTuples(ts) && SortedTuples(us) && multiset(ts) == multiset(us) && us != []
    ensures ts != [] && ts[0].key == us[0].key
  {
    BagSize(ts, us);
    BagBounds(ts, us, ts[0].key);
    BagBounds(ts, us, us[0].key);
    assert AllAtLeast(ts, ts[0].key) && AllAtLeast(us, us[0].key);
    assert ts[0].key <= us[0].key && us[0].key <= ts[0].key;
  }

  lemma PutAnchored(s: Store, s': Store, leaves: Level, i: nat, t: Tuple)
    requires i < |leaves| && NoDup(leaves) && LeafPut(s, s', leaves, i, SortedInsert(TuplesOf(s, leaves[i].child), t))
    requires Anchored(s, leaves) && Belongs(leaves, i, t.key)
    ensures Anchored(s', leaves)
  {
    forall x | 0 <= x < |leaves|
      ensures AnchoredAt(s', leaves, x)
    {
      assert AnchoredAt(s, leaves, x);
      if x != i {
        assert TuplesOf(s', leaves[x].child) == TuplesOf(s, leaves[x].child);
      }
    }
  }

  // ------------------------------------------------------------------ inserting into a leaf

  /** A key belongs in leaf i: it lies between the separators of the leaf. */
  ghost predicate Belongs(leaves: Level, i: nat, key: int) {
    && i < |leaves|
    && (i > 0 ==> leaves[i].key <= key)
    && (i + 1 < |leaves| ==> key <= leaves[i + 1].key)
  }

  lemma GuidesBelongs(t: Tree, i: nat, p: nat, key: int)
    requires Found(t, i, p, Some(key))
    ensures Belongs(t.levels[0], i, key)
  {
  }

  /** Only the tuples of leaf i changed. */
  ghost predicate LeafPut(s: Store, s': Store, leaves: Level, i: nat, ts: seq<Tuple>)
    requires i < |leaves|
  {
    var p := leaves[i].child;
    && p in s && s[p].LeafPage? && s' == s[p := s[p].(tuples := ts)]
  }

  lemma PutContents(s: Store, s': Store, leaves: Level, i: nat, ts: seq<Tuple>)
    requires i < |leaves| && NoDup(leaves) && LeafPut(s, s', leaves, i, ts)
    ensures Contents(s, leaves) ==
            Contents(s, leaves[..i]) + TuplesOf(s, leaves[i].child) + Contents(s, leaves[i + 1..])
    ensures Contents(s', leaves) == Contents(s, leaves[..i]) + ts + Contents(s, leaves[i + 1..])
  {
    ContentsAt(s, leaves, i);
    ContentsAt(s', leaves, i);
    ContentsFrame(s, s', leaves[..i]);
    ContentsFrame(s, s', leaves[i + 1..]);
  }

  lemma PutLeavesOK(s: Store, s': Store, leaves: Level, i: nat, ts: seq<Tuple>, cap: nat, ex: nat, ex': nat)
    requires i < |leaves| && NoDup(leaves) && LeafPut(s, s', leaves, i, ts) && LeavesOK(s, leaves, cap, ex)
    requires LeafOrdered(s', leaves, i) && LeafSized(s', leaves, i, cap, ex')
    requires ex == ex' || ex == leaves[i].child || (ex == 0 && ex' == leaves[i].child)
    requires ex != ex' ==> forall x :: 0 <= x < |leaves| && x != i ==> leaves[x].child != ex && leaves[x].child != ex'
    ensures LeavesOK(s', leaves, cap, ex')
  {
    forall x | 0 <= x < |leaves|
      ensures LeafOK(s', leaves, x, cap, ex')
    {
      assert LeafOK(s, leaves, x, cap, ex);
      if x != i {
        assert TuplesOf(s', leaves[x].child) == TuplesOf(s, leaves[x].child);
      }
    }
  }

  lemma PutAbove(a: State, b: State, leafCap: nat, nodeCap: nat, i: nat, ts: seq<Tuple>, ex: nat)
    requires Legal(a, leafCap, nodeCap, ex) && i < |a.tree.levels[0]|
    requires LeafPut(a.pages, b.pages, a.tree.levels[0], i, ts) && b.tree == a.tree && b.inUse == a.inUse
    ensures Above(b.pages, b.tree, 0, nodeCap, 0) && NoDup(b.tree.levels[0])
    ensures a.tree.levels[0][i].child in a.inUse && a.tree.levels[0][i].child != 0
  {
    LevelHeight(a.tree, 0, i);
    assert Typed(a.pages, a.tree) && Rooted(a.pages, a.tree);
    hide Above;
    AboveFrame(a.pages, b.pages, a.tree, 0, nodeCap, 0);
  }

  lemma InsertBags(a: seq<Tuple>, ts: seq<Tuple>, b: seq<Tuple>, t: Tuple)
    ensures multiset(a + SortedInsert(ts, t) + b) == multiset(a + ts + b) + multiset{t}
  {
    SortedInsertElements(ts, t);
    BagThree(a, ts, b);
    BagThree(a, SortedInsert(ts, t), b);
  }

  lemma SortedInsertBounds(ts: seq<Tuple>, t: Tuple, key: int)
    ensures AllAtLeast(ts, key) && key <= t.key ==> AllAtLeast(SortedInsert(ts, t), key)
    ensures AllAtMost(ts, key) && t.key <= key ==> AllAtMost(SortedInsert(ts, t), key)
  {
  }

  /** One tuple was put in at some place, and no other moved. */
  ghost predicate PutInOnce(before: seq<Tuple>, after: seq<Tuple>, t: Tuple) {
    exists n :: 0 <= n <= |before| && after == before[..n] + [t] + before[n..]
  }

  lemma PutInMiddle(a: seq<Tuple>, ts: seq<Tuple>, b: seq<Tuple>, t: Tuple)
    ensures PutInOnce(a + ts + b, a + SortedInsert(ts, t) + b, t)
  {
    var r := Rank(ts, t.key);
    var before := a + ts + b;
    var n := |a| + r;
    assert before[..n] == a + ts[..r] && before[n..] == ts[r..] + b;
    assert a + SortedInsert(ts, t) + b == before[..n] + [t] + before[n..];
  }

  /** insertTuple on the leaf where the key belongs. */
  lemma LeafInserted(a: State, b: State, leafCap: nat, nodeCap: nat, i: nat, t: Tuple)
    requires Legal(a, leafCap, nodeCap, 0) && Belongs(a.tree.levels[0], i, t.key)
    requires |TuplesOf(a.pages, a.tree.levels[0][i].child)| < leafCap
    requires b.tree == a.tree && b.inUse == a.inUse
    requires LeafPut(a.pages, b.pages, a.tree.levels[0], i,
                     SortedInsert(TuplesOf(a.pages, a.tree.levels[0][i].child), t))
    ensures Legal(b, leafCap, nodeCap, 0)
    ensures multiset(Contents(b.pages, b.tree.levels[0])) ==
            multiset(Contents(a.pages, a.tree.levels[0])) + multiset{t}
    ensures PutInOnce(Contents(a.pages, a.tree.levels[0]), Contents(b.pages, b.tree.levels[0]), t)
  {
    var leaves := a.tree.levels[0];
    var ts := TuplesOf(a.pages, leaves[i].child);
    PutInMiddle(Contents(a.pages, leaves[..i]), ts, Contents(a.pages, leaves[i + 1..]), t);
    PutAbove(a, b, leafCap, nodeCap, i, SortedInsert(ts, t), 0);
    PutContents(a.pages, b.pages, leaves, i, SortedInsert(ts, t));
    InsertBags(Contents(a.pages, leaves[..i]), ts, Contents(a.pages, leaves[i + 1..]), t);
    assert LeafOK(a.pages, leaves, i, leafCap, 0);
    hide Above, Contents;
    SortedInsertSorted(ts, t);
    if i > 0 { SortedInsertBounds(ts, t, leaves[i].key); }
    if i + 1 < |leaves| { SortedInsertBounds(ts, t, leaves[i + 1].key); }
    PutLeavesOK(a.pages, b.pages, leaves, i, SortedInsert(ts, t), leafCap, 0, 0);
  }

  /** What splitLeafPage leaves: a legal tree with the same tuples, and leaf i, page
      chosen, with room, where the key belongs. */
  ghost predicate LeafSplitResult(a: State, b: State, leafCap: nat, nodeCap: nat, i: nat, chosen: nat, key: int) {
    && Legal(a, leafCap, nodeCap, 0) && Legal(b, leafCap, nodeCap, 0)
    && multiset(Contents(b.pages, b.tree.levels[0])) == multiset(Contents(a.pages, a.tree.levels[0]))
    && Belongs(b.tree.levels[0], i, key) && b.tree.levels[0][i].child == chosen
    && |TuplesOf(b.pages, chosen)| < leafCap
    && (Anchored(a.pages, a.tree.levels[0]) ==> Anchored(b.pages, b.tree.levels[0]))
  }

  lemma LeafSplitChosen(a: State, b: State, leafCap: nat, nodeCap: nat, j: nat, p: nat, r: nat, index: int, key: int)
    requires Legal(a, leafCap, nodeCap, 0) && Legal(b, leafCap, nodeCap, 0) && leafCap >= 2
    requires j < |a.tree.levels[0]| && p == a.tree.levels[0][j].child && |TuplesOf(a.pages, p)| == leafCap
    requires b.tree.levels[0] == InsertAfter(a.tree.levels[0], j, Slot(index, r))
    requires multiset(Contents(b.pages, b.tree.levels[0])) == multiset(Contents(a.pages, a.tree.levels[0]))
    requires LeafCut(a.pages, b.pages, a.tree.levels[0], j, leafCap / 2, r)
    requires Belongs(a.tree.levels[0], j, key) && index == TuplesOf(a.pages, p)[leafCap / 2].key
    ensures LeafSplitResult(a, b, leafCap, nodeCap, if key < index then j else j + 1, if key < index then p else r, key)
  {
    hide Legal, Contents, Anchored, SortedTuples;
    BagSize(TuplesOf(b.pages, r), TuplesOf(a.pages, p)[leafCap / 2..]);
    LeafPlace(a, leafCap, nodeCap, 0, j);
    LegalRoot(a, leafCap, nodeCap, 0);
    if Anchored(a.pages, a.tree.levels[0]) {
      CutAnchored(a.pages, b.pages, a.tree.levels[0], j, leafCap / 2, r, Slot(index, r));
    }
  }

  // ------------------------------------------------------------------ insertTuple

  /** Whether inserting a key ends at the failed assertion: the leaf it belongs in is full,
      and splitting it makes a tie further up.  height bounds the levels. */
  predicate InsertTies(s: Store, key: int, leafCap: nat, nodeCap: nat, height: nat) {
    && height > 0 && 0 in s && s[0].RootPtrPage?
    && var leaf := LeafFor(s, s[0].root, Some(key), height - 1);
       && leafCap > 0 && |TuplesOf(s, leaf)| == leafCap
       && WouldTie(s, leaf, TuplesOf(s, leaf)[leafCap / 2].key, nodeCap, height - 1)
  }

  /** Whether the leaf that a key belongs in has room for a tuple. */
  predicate LeafHasSpace(s: Store, key: int, leafCap: nat, height: nat) {
    height > 0 && 0 in s && s[0].RootPtrPage? ==>
      |TuplesOf(s, LeafFor(s, s[0].root, Some(key), height - 1))| != leafCap
  }

  lemma NewTreeAbove(a: State, nodeCap: nat, numSlots: nat)
    requires a.pages == NewRootPages(numSlots) && a.tree == Tree([[Slot(0, 1)]], map[1 := 0])
    ensures Above(a.pages, a.tree, 0, nodeCap, 0)
  {
    assert a.tree.levels[0][0].child == 1;
  }

  /** A new file: an empty leaf, page 1, is the root. */
  lemma NewTree(a: State, leafCap: nat, nodeCap: nat, numSlots: nat)
    requires a.pages == NewRootPages(numSlots) && a.inUse == {1}
    requires a.tree == Tree([[Slot(0, 1)]], map[1 := 0])
    ensures Legal(a, leafCap, nodeCap, 0) && Contents(a.pages, a.tree.levels[0]) == []
  {
    hide Above, Contents;
    ContentsSingle(a.pages, Slot(0, 1));
    NewTreeAbove(a, nodeCap, numSlots);
  }

  function NewRootPages(numSlots: nat): Store {
    map[0 := RootPtrPage(1, 0, Leaf), 1 := EmptyPage(Leaf, numSlots)]
  }

  /** A search in a new file comes to page 1, an empty leaf. */
  ghost predicate Created(s: Store, rootId: nat, key: int, leafCap: nat, height: nat) {
    height == 1 && LeafFor(s, rootId, Some(key), 0) == 1 && LeafHasSpace(s, key, leafCap, 1)
  }

  lemma NoTieInNewTree(numSlots: nat, key: int, leafCap: nat, nodeCap: nat)
    requires leafCap > 0
    ensures Created(NewRootPages(numSlots), 1, key, leafCap, 1)
    ensures !InsertTies(NewRootPages(numSlots), key, leafCap, nodeCap, 1)
  {
  }

  lemma LegalRoot(a: State, leafCap: nat, nodeCap: nat, ex: nat)
    requires Legal(a, leafCap, nodeCap, ex)
    ensures a.tree.levels != [] && 0 in a.pages && a.pages[0].RootPtrPage? && a.pages[0].root != 0
  {
    RootHeight(a.pages, a.tree);
    assert Typed(a.pages, a.tree);
  }

  /** A search starts at the root. */
  lemma SearchRoot(a: State, leafCap: nat, nodeCap: nat, f: Option<int>)
    requires Legal(a, leafCap, nodeCap, 0)
    ensures 0 in a.pages && a.pages[0].RootPtrPage? && |a.tree.levels| > 0
    ensures Searching(a.pages, a.tree, nodeCap, |a.tree.levels| - 1, 0, a.pages[0].root, a.pages[0].rootCategory, f)
  {
    AboveAt(a.pages, a.tree, |a.tree.levels| - 1, nodeCap);
  }

  /** A leaf with room need not be split. */
  lemma LeafHasRoom(a: State, leafCap: nat, nodeCap: nat, i: nat, p: nat, key: int)
    requires Legal(a, leafCap, nodeCap, 0) && Belongs(a.tree.levels[0], i, key) && a.tree.levels[0][i].child == p
    requires |TuplesOf(a.pages, p)| != leafCap
    ensures LeafSplitResult(a, a, leafCap, nodeCap, i, p, key)
  {
    LeafPlace(a, leafCap, nodeCap, 0, i);
  }

  /** insertTuple on the leaf chosen. */
  lemma TupleInserted(a: State, b: State, c: State, leafCap: nat, nodeCap: nat, i: nat, p: nat, t: Tuple)
    requires LeafSplitResult(a, b, leafCap, nodeCap, i, p, t.key)
    requires p in b.pages && b.pages[p].LeafPage?
    requires c.tree == b.tree && c.inUse == b.inUse
    requires c.pages == b.pages[p := b.pages[p].(tuples := SortedInsert(b.pages[p].tuples, t))]
    ensures Legal(c, leafCap, nodeCap, 0) && c.tree.levels != []
    ensures SortedTuples(Contents(c.pages, c.tree.levels[0]))
    ensures multiset(Contents(c.pages, c.tree.levels[0])) ==
            multiset(Contents(a.pages, a.tree.levels[0])) + multiset{t}
    ensures Anchored(a.pages, a.tree.levels[0]) ==> Anchored(c.pages, c.tree.levels[0])
    ensures PutInOnce(Contents(b.pages, b.tree.levels[0]), Contents(c.pages, c.tree.levels[0]), t)
  {
    hide Legal, Contents, SortedInsert, SortedTuples, Anchored, PutInOnce;
    LeafPlace(b, leafCap, nodeCap, 0, i);
    LegalRoot(b, leafCap, nodeCap, 0);
    if Anchored(b.pages, b.tree.levels[0]) {
      PutAnchored(b.pages, c.pages, b.tree.levels[0], i, t);
    }
    LeafInserted(b, c, leafCap, nodeCap, i, t);
    LegalRoot(c, leafCap, nodeCap, 0);
    LegalSorted(c, leafCap, nodeCap);
  }

  lemma LegalSorted(a: State, leafCap: nat, nodeCap: nat)
    requires Legal(a, leafCap, nodeCap, 0)
    ensures SortedTuples(Contents(a.pages, a.tree.levels[0]))
  {
    ContentsSorted(a.pages, a.tree.levels[0], leafCap, 0);
  }

  lemma ChosenPage(a: State, b: State, leafCap: nat, nodeCap: nat, i: nat, p: nat, key: int)
    requires LeafSplitResult(a, b, leafCap, nodeCap, i, p, key)
    ensures p in b.inUse && p in b.pages && b.pages[p].LeafPage? && |b.pages[p].tuples| < leafCap
  {
    LeafPlace(b, leafCap, nodeCap, 0, i);
  }
}
