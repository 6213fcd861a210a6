/** Files whose tuples have pairwise distinct keys: insertion never fails, and each
    operation is that of a sorted sequence. */
module DistinctKeys {
  import opened Pages
  import opened Levels
  import opened Trees
  import opened Merging
  import opened Leaves
  import opened LeafPairs
  import opened Separators

  ghost predicate Distinct(ts: seq<Tuple>) {
    forall i, j :: 0 <= i < j < |ts| ==> ts[i].key != ts[j].key
  }

  // ------------------------------------------------------------------ sorted sequences

  /** With distinct keys there is one way to sort the tuples. */
  lemma {:induction false} SortedOnce(ts: seq<Tuple>, us: seq<Tuple>)
    requires SortedTuples(ts) && SortedTuples(us) && Distinct(ts) && multiset(ts) == multiset(us)
    ensures ts == us
  {
    BagSize(ts, us);
    if ts != [] {
      SameHead(ts, us);
      TailBag(ts);
      TailBag(us);
      SortedOnce(ts[1..], us[1..]);
      assert ts == [ts[0]] + ts[1..] && us == [us[0]] + us[1..];
    }
  }

  lemma SameHead(ts: seq<Tuple>, us: seq<Tuple>)
    requires SortedTuples(ts) && SortedTuples(us) && Distinct(ts) && multiset(ts) == multiset(us)
    requires ts != [] && us != []
    ensures ts[0] == us[0]
  {
    SmallestFirst(ts, us);
    assert us[0] in multiset(us);
    var j := IndexOf(ts, us[0]);
    assert j == 0;
  }

  lemma IndexOf(ts: seq<Tuple>, t: Tuple) returns (j: nat)
    requires t in multiset(ts)
    ensures j < |ts| && ts[j] == t
  {
    j :| 0 <= j < |ts| && ts[j] == t;
  }

  lemma TailBag(ts: seq<Tuple>)
    requires ts != []
    ensures multiset(ts[1..]) == multiset(ts) - multiset{ts[0]}
  {
    assert ts == [ts[0]] + ts[1..];
  }

  /** insertTuple puts the tuple in its place and moves no other. */
  lemma InsertInPlace(before: seq<Tuple>, after: seq<Tuple>, t: Tuple)
    requires SortedTuples(before) && SortedTuples(after)
    requires Distinct(after) || Distinct(SortedInsert(before, t))
    requires multiset(after) == multiset(before) + multiset{t}
    ensures after == SortedInsert(before, t)
  {
    SortedInsertSorted(before, t);
    SortedInsertElements(before, t);
    if Distinct(after) {
      SortedOnce(after, SortedInsert(before, t));
    } else {
      SortedOnce(SortedInsert(before, t), after);
    }
  }

  /** deleteTuple takes the tuple from its place and moves no other. */
  lemma DeleteInPlace(before: seq<Tuple>, after: seq<Tuple>, i: nat)
    requires SortedTuples(before) && SortedTuples(after) && Distinct(before) && i < |before|
    requires multiset(after) + multiset{before[i]} == multiset(before)
    ensures after == RemoveTuple(before, i)
  {
    var rest := RemoveTuple(before, i);
    RemovedBag(before, i);
    RemovedSorted(before, i);
    SameRest(rest, after, before, before[i]);
    SortedOnce(rest, after);
  }

  lemma SameRest(ts: seq<Tuple>, us: seq<Tuple>, all: seq<Tuple>, t: Tuple)
    requires multiset(ts) + multiset{t} == multiset(all) && multiset(us) + multiset{t} == multiset(all)
    ensures multiset(ts) == multiset(us)
  {
    assert multiset(ts) == multiset(all) - multiset{t} == multiset(us);
  }

  lemma RemovedSorted(ts: seq<Tuple>, i: nat)
    requires SortedTuples(ts) && Distinct(ts) && i < |ts|
    ensures SortedTuples(RemoveTuple(ts, i)) && Distinct(RemoveTuple(ts, i))
  {
    var rest := RemoveTuple(ts, i);
    assert forall x :: 0 <= x < |rest| ==> rest[x] == ts[if x < i then x else x + 1];
  }

  // ------------------------------------------------------------------ strict separators

  /** If leaf i is full, the key it would be cut at is below the separator on its right. */
  ghost predicate CutFits(s: Store, leaves: Level, cap: nat, i: nat)
    requires i < |leaves|
  {
    var ts := TuplesOf(s, leaves[i].child);
    cap >= 2 && |ts| == cap && i + 1 < |leaves| ==> ts[cap / 2].key < leaves[i + 1].key
  }

  ghost predicate Separated(s: Store, leaves: Level, cap: nat) {
    NearlyStrict(leaves) && forall i :: 0 <= i < |leaves| ==> CutFits(s, leaves, cap, i)
  }

  lemma LastIsLargest(ts: seq<Tuple>, x: nat)
    requires SortedTuples(ts) && Distinct(ts) && x + 1 < |ts|
    ensures ts[x].key < ts[|ts| - 1].key
  {
    assert ts[x].key <= ts[|ts| - 1].key && ts[x].key != ts[|ts| - 1].key;
  }

  lemma LeafDistinct(s: Store, leaves: Level, i: nat)
    requires Distinct(Contents(s, leaves)) && i < |leaves|
    ensures Distinct(TuplesOf(s, leaves[i].child))
  {
    ContentsAt(s, leaves, i);
    var a, ts := Contents(s, leaves[..i]), TuplesOf(s, leaves[i].child);
    forall x, y | 0 <= x < y < |ts|
      ensures ts[x].key != ts[y].key
    {
      assert Contents(s, leaves)[|a| + x] == ts[x] && Contents(s, leaves)[|a| + y] == ts[y];
    }
  }

  /** Two neighbouring leaves share no key. */
  lemma NeighboursDistinct(s: Store, leaves: Level, i: nat, x: nat, y: nat)
    requires Distinct(Contents(s, leaves)) && i + 1 < |leaves|
    requires x < |TuplesOf(s, leaves[i].child)| && y < |TuplesOf(s, leaves[i + 1].child)|
    ensures TuplesOf(s, leaves[i].child)[x].key != TuplesOf(s, leaves[i + 1].child)[y].key
  {
    ContentsPair(s, leaves, i);
    var a, ts := Contents(s, leaves[..i]), TuplesOf(s, leaves[i].child);
    assert Contents(s, leaves)[|a| + x] == ts[x];
    assert Contents(s, leaves)[|a| + |ts| + y] == TuplesOf(s, leaves[i + 1].child)[y];
  }

  lemma {:induction false} StrictFromSteps(level: Level, i: nat, j: nat)
    requires 1 <= i < j < |level|
    requires forall x :: 1 <= x < |level| - 1 ==> StepUp(level, x)
    ensures level[i].key < level[j].key
    decreases j
  {
    assert StepUp(level, j - 1);
    if i < j - 1 {
      StrictFromSteps(level, i, j - 1);
    }
  }

  ghost predicate StepUp(level: Level, x: nat)
    requires x + 1 < |level|
  {
    level[x].key < level[x + 1].key
  }

  /** Leaves of at least three tuples are cut at a key that is not their last, and separate
      separators that are not neighbours. */
  lemma SeparatedByThree(s: Store, leaves: Level, cap: nat)
    requires LeavesOK(s, leaves, cap, 0) && Distinct(Contents(s, leaves)) && cap >= 3 && SortedLevel(leaves)
    requires forall i :: 0 <= i < |leaves| ==> leaves[i].child != 0
    ensures Separated(s, leaves, cap)
  {
    hide Contents, SortedTuples, Distinct;
    forall i | 0 <= i < |leaves|
      ensures CutFits(s, leaves, cap, i)
    {
      LeafDistinct(s, leaves, i);
      assert LeafOK(s, leaves, i, cap, 0);
      if |TuplesOf(s, leaves[i].child)| == cap {
        LastIsLargest(TuplesOf(s, leaves[i].child), cap / 2);
      }
    }
    forall i, j | 1 <= i < j < |leaves| && i + 2 <= j
      ensures leaves[i].key < leaves[j].key
    {
      assert LeafOK(s, leaves, i, cap, 0) && LeafOK(s, leaves, i + 1, cap, 0);
      NeighboursDistinct(s, leaves, i, 0, 0);
    }
  }

  /** Leaves of at least two tuples each separate their separators. */
  lemma StrictByTwo(s: Store, leaves: Level, cap: nat)
    requires LeavesOK(s, leaves, cap, 0) && Distinct(Contents(s, leaves)) && cap >= 4
    requires forall i :: 0 <= i < |leaves| ==> leaves[i].child != 0
    ensures StrictLevel(leaves)
  {
    hide Contents, SortedTuples, Distinct;
    forall x | 1 <= x < |leaves| - 1
      ensures StepUp(leaves, x)
    {
      LeafDistinct(s, leaves, x);
      assert LeafOK(s, leaves, x, cap, 0);
      LastIsLargest(TuplesOf(s, leaves[x].child), 0);
    }
    forall i, j | 1 <= i < j < |leaves|
      ensures leaves[i].key < leaves[j].key
    {
      StrictFromSteps(leaves, i, j);
    }
  }

  /** So do separators that are keys of the file. */
  lemma SeparatedByAnchors(s: Store, leaves: Level, cap: nat)
    requires LeavesOK(s, leaves, cap, 0) && Distinct(Contents(s, leaves)) && Anchored(s, leaves)
    ensures Separated(s, leaves, cap) && StrictLevel(leaves)
  {
    hide Contents;
    forall i, x | 0 <= i < |leaves| - 1 && 0 <= x < |TuplesOf(s, leaves[i].child)|
      ensures TuplesOf(s, leaves[i].child)[x].key < leaves[i + 1].key
    {
      assert AnchoredAt(s, leaves, i + 1) && LeafOK(s, leaves, i, cap, 0);
      NeighboursDistinct(s, leaves, i, x, 0);
    }
    forall x | 1 <= x < |leaves| - 1
      ensures StepUp(leaves, x)
    {
      assert AnchoredAt(s, leaves, x);
    }
    forall i, j | 1 <= i < j < |leaves|
      ensures leaves[i].key < leaves[j].key
    {
      StrictFromSteps(leaves, i, j);
    }
  }

  /** The key a full node pushes up is below the separator on the right of the node. */
  lemma PushedBelow(s: Store, t: Tree, k: nat, cap: nat, u: nat)
    requires Above(s, t, k, cap, 0) && k + 1 < |t.levels| && NearlyStrict(t.levels[k]) && u < |t.levels[k + 1]|
    requires cap >= 3 && |SlotsOf(s, t.levels[k + 1][u].child)| == cap + 1
    ensures u + 1 < |t.levels[k + 1]| ==> Pushed(s, t.levels[k + 1][u].child, cap) < t.levels[k + 1][u + 1].key
  {
    hide Above, Linked, Filled, Placed, SortedLevel, NoDup, Typed, Rooted, Expand, Offset;
    var up, down := t.levels[k + 1], t.levels[k];
    LevelBelow(s, t, k, cap, 0);
    SlotsNonEmpty(s, t, k + 1, cap, 0);
    if u + 1 < |up| {
      ChildAt(s, up, u, Cut(cap));
      OffsetNext(s, up, u);
      ChildAt(s, up, u + 1, 0);
    }
  }

  /** A key below the separator on the right of a node makes no tie above it. */
  lemma {:induction false} NoTieAbove(s: Store, t: Tree, k: nat, cap: nat, j: nat, key: int, fuel: nat)
    requires Above(s, t, k, cap, 0) && cap >= 3 && j < |t.levels[k]| && NearlyStrict(t.levels[k])
    requires j + 1 < |t.levels[k]| ==> key < t.levels[k][j + 1].key
    ensures !WouldTie(s, t.levels[k][j].child, key, cap, fuel)
    decreases fuel
  {
    hide Above, StrictLevel, NearlyStrict, WouldTie, Offset, DistinctChildren, SortedSlots, LeftHalf, HasChild, Expand, Pushed;
    AboveLevels(s, t, k, cap);
    var p := t.levels[k][j].child;
    WouldTieStep(s, p, key, cap, fuel);
    ParentlessIsTop(s, t, k, cap, 0, j);
    if k + 1 < |t.levels| {
      var u, c := ParentHeight(s, t, k, cap, 0, j);
      var q := t.levels[k + 1][u].child;
      if |SlotsOf(s, q)| == cap + 1 {
        NodeOrdered(s, t, k, cap, u);
        NoTieHere(s, t, k, cap, u, c, key);
        if fuel > 0 {
          PushedBelow(s, t, k, cap, u);
          StrictUp(s, t, k, cap);
          StrictIsNearly(t.levels[k + 1]);
          AboveUp(s, t, k, cap);
          PushedIs(s, q, cap);
          NoTieAbove(s, t, k + 1, cap, u, SlotsOf(s, q)[Cut(cap)].key, fuel - 1);
        }
      }
    }
  }

  lemma PushedIs(s: Store, q: nat, cap: nat)
    requires |SlotsOf(s, q)| == cap + 1 && cap > 0
    ensures Pushed(s, q, cap) == SlotsOf(s, q)[Cut(cap)].key
  {
  }

  lemma NoTieHere(s: Store, t: Tree, k: nat, cap: nat, u: nat, c: nat, key: int)
    requires Above(s, t, k, cap, 0) && k + 1 < |t.levels| && u < |t.levels[k + 1]| && cap >= 3
    requires var slots := SlotsOf(s, t.levels[k + 1][u].child);
             && |slots| == cap + 1 && c < |slots| && DistinctChildren(slots) && SortedSlots(slots)
    requires var j := Offset(s, t.levels[k + 1], u) + c;
             j + 1 < |t.levels[k]| ==> key < t.levels[k][j + 1].key
    ensures var slots := SlotsOf(s, t.levels[k + 1][u].child);
            !(key == slots[Cut(cap)].key && HasChild(LeftHalf(slots, Cut(cap)), slots[c].child))
  {
    hide Above, Offset;
    var slots := SlotsOf(s, t.levels[k + 1][u].child);
    LevelBelow(s, t, k, cap, 0);
    KidNeighbours(s, t.levels[k + 1], t.levels[k], u, c);
    if HasChild(LeftHalf(slots, Cut(cap)), slots[c].child) {
      var d := ChildIndex(LeftHalf(slots, Cut(cap)), slots[c].child);
      assert slots[d].child == slots[c].child;
      assert d == c;
      assert slots[c + 1].key <= slots[Cut(cap)].key;
    }
  }

  // ------------------------------------------------------------------ insertion never fails

  /** In a legal file with distinct keys no insertion ends at a failed assertion, given that
      leaves hold three tuples or that no tuple was ever deleted. */
  lemma InsertNeverTies(a: State, key: int, leafCap: nat, nodeCap: nat)
    requires Legal(a, leafCap, nodeCap, 0) && nodeCap >= 3 && leafCap >= 2
    requires a.tree.levels != [] ==> Distinct(Contents(a.pages, a.tree.levels[0]))
    requires a.tree.levels != [] ==> leafCap >= 3 || Anchored(a.pages, a.tree.levels[0])
    ensures !InsertTies(a.pages, key, leafCap, nodeCap, |a.tree.levels|)
  {
    hide Contents, Found, Searching, LeafFor, WouldTie, Anchored, Distinct;
    LegalRoot(a, leafCap, nodeCap, 0);
    SearchRoot(a, leafCap, nodeCap, Some(key));
    var leaves := a.tree.levels[0];
    var i := SidesFound(a.pages, a.tree, nodeCap, |a.tree.levels| - 1, 0, a.pages[0].root, a.pages[0].rootCategory, Some(key));
    var p := LeafFor(a.pages, a.pages[0].root, Some(key), |a.tree.levels| - 1);
    if |TuplesOf(a.pages, p)| == leafCap {
      LegalSeparated(a, leafCap, nodeCap);
      CutBelow(a, leafCap, nodeCap, i, p, Some(key));
      hide Legal;
      NoTieAbove(a.pages, a.tree, 0, nodeCap, i, TuplesOf(a.pages, p)[leafCap / 2].key, |a.tree.levels| - 1);
    }
  }

  lemma LegalSeparated(a: State, leafCap: nat, nodeCap: nat)
    requires Legal(a, leafCap, nodeCap, 0) && Distinct(Contents(a.pages, a.tree.levels[0]))
    requires leafCap >= 3 || Anchored(a.pages, a.tree.levels[0])
    ensures Separated(a.pages, a.tree.levels[0], leafCap)
  {
    hide LeavesOK, Contents, Distinct;
    if leafCap >= 3 {
      LeavesNotNull(a, leafCap, nodeCap);
      SeparatedByThree(a.pages, a.tree.levels[0], leafCap);
    } else {
      SeparatedByAnchors(a.pages, a.tree.levels[0], leafCap);
    }
  }

  lemma LeavesNotNull(a: State, leafCap: nat, nodeCap: nat)
    requires Legal(a, leafCap, nodeCap, 0)
    ensures a.tree.levels != [] && forall i :: 0 <= i < |a.tree.levels[0]| ==> a.tree.levels[0][i].child != 0
  {
    hide LeavesOK;
    forall i | 0 <= i < |a.tree.levels[0]|
      ensures a.tree.levels[0][i].child != 0
    {
      LevelHeight(a.tree, 0, i);
    }
  }

  /** The key a full leaf is cut at is below the separator on the right of the leaf. */
  lemma CutBelow(a: State, leafCap: nat, nodeCap: nat, i: nat, p: nat, f: Option<int>)
    requires Legal(a, leafCap, nodeCap, 0) && Found(a.tree, i, p, f) && leafCap >= 2
    requires Separated(a.pages, a.tree.levels[0], leafCap) && |TuplesOf(a.pages, p)| == leafCap
    ensures i < |a.tree.levels[0]| && a.tree.levels[0][i].child == p && NearlyStrict(a.tree.levels[0])
    ensures i + 1 < |a.tree.levels[0]| ==> TuplesOf(a.pages, p)[leafCap / 2].key < a.tree.levels[0][i + 1].key
  {
    assert CutFits(a.pages, a.tree.levels[0], leafCap, i);
  }
}
