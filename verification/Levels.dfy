/** The shape of a B+ tree, one level at a time.

    A level lists the nodes of equal height from left to right, each with the
    separator key on its left (the first node has none; its key is not used).
    A level is what the level above expands to: each node is replaced by its
    children, separated by its keys.  Splitting, merging and redistributing
    nodes of one level only moves the cuts between them, so the level below is
    what says that nothing was lost. */
module Levels {
  import opened Pages

  type Level = seq<Slot>

  /** levels[0] is the leaves, the last level is the root alone; heightOf names the
      level of every page of the tree. */
  datatype Tree = Tree(levels: seq<Level>, heightOf: map<nat, nat>)

  // ------------------------------------------------------------------ expansion

  function Rekey(key: int, slots: seq<Slot>): (r: Level)
    ensures |r| == |slots|
  {
    if slots == [] then [] else [Slot(key, slots[0].child)] + slots[1..]
  }

  /** The children of a node, with the separator on the left of each. */
  function Kids(s: Store, x: Slot): (r: Level)
    ensures |r| == |SlotsOf(s, x.child)|
  {
    Rekey(x.key, SlotsOf(s, x.child))
  }

  function Expand(s: Store, up: Level): Level {
    if up == [] then [] else Kids(s, up[0]) + Expand(s, up[1..])
  }

  lemma {:induction false} ExpandAppend(s: Store, a: Level, b: Level)
    ensures Expand(s, a + b) == Expand(s, a) + Expand(s, b)
  {
    if a == [] {
      assert a + b == b;
    } else {
      assert (a + b)[0] == a[0] && (a + b)[1..] == a[1..] + b;
      ExpandAppend(s, a[1..], b);
    }
  }

  lemma {:induction false} ExpandFrame(s: Store, s': Store, up: Level)
    requires forall i :: 0 <= i < |up| ==> SlotsOf(s', up[i].child) == SlotsOf(s, up[i].child)
    ensures Expand(s', up) == Expand(s, up)
  {
    if up != [] {
      forall i | 0 <= i < |up[1..]|
        ensures SlotsOf(s', up[1..][i].child) == SlotsOf(s, up[1..][i].child)
      {
        assert up[1..][i] == up[i + 1];
      }
      ExpandFrame(s, s', up[1..]);
    }
  }

  lemma ExpandSingle(s: Store, x: Slot)
    ensures Expand(s, [x]) == Kids(s, x)
  {
    assert Expand(s, [x][1..]) == [];
  }

  lemma ExpandAt(s: Store, up: Level, j: nat)
    requires j < |up|
    ensures Expand(s, up) == Expand(s, up[..j]) + Kids(s, up[j]) + Expand(s, up[j + 1..])
  {
    assert up == up[..j] + ([up[j]] + up[j + 1..]);
    ExpandAppend(s, up[..j], [up[j]] + up[j + 1..]);
    ExpandAppend(s, [up[j]], up[j + 1..]);
    ExpandSingle(s, up[j]);
  }

  /** Where the first child of node j sits in the level below. */
  function Offset(s: Store, up: Level, j: nat): nat
    requires j <= |up|
  {
    |Expand(s, up[..j])|
  }

  /** Child c of node j, in the level below. */
  lemma ChildAt(s: Store, up: Level, j: nat, c: nat)
    requires j < |up| && c < |SlotsOf(s, up[j].child)|
    ensures Offset(s, up, j) + c < |Expand(s, up)|
    ensures Expand(s, up)[Offset(s, up, j) + c] == Kids(s, up[j])[c]
    ensures Expand(s, up)[Offset(s, up, j) + c].child == SlotsOf(s, up[j].child)[c].child
    ensures c > 0 ==> Expand(s, up)[Offset(s, up, j) + c] == SlotsOf(s, up[j].child)[c]
    ensures c == 0 ==> Expand(s, up)[Offset(s, up, j)].key == up[j].key
  {
    ExpandAt(s, up, j);
  }

  /** Every position of the level below is a child of a node. */
  lemma {:induction false} LocateOffset(s: Store, up: Level, x: nat) returns (j: nat, c: nat)
    requires x < |Expand(s, up)|
    ensures j < |up| && c < |SlotsOf(s, up[j].child)|
    ensures x == Offset(s, up, j) + c
  {
    var rest := up[1..];
    if x < |Kids(s, up[0])| {
      j, c := 0, x;
      assert up[..0] == [];
    } else {
      j, c := LocateOffset(s, rest, x - |Kids(s, up[0])|);
      ExpandAppend(s, [up[0]], rest[..j]);
      ExpandSingle(s, up[0]);
      assert up[..j + 1] == [up[0]] + rest[..j];
      j := j + 1;
    }
  }

  lemma Locate(s: Store, up: Level, x: nat) returns (j: nat, c: nat)
    requires x < |Expand(s, up)|
    ensures j < |up| && c < |SlotsOf(s, up[j].child)|
    ensures x == Offset(s, up, j) + c
    ensures Expand(s, up)[x] == Kids(s, up[j])[c]
    ensures Expand(s, up)[x].child == SlotsOf(s, up[j].child)[c].child
  {
    j, c := LocateOffset(s, up, x);
    ChildAt(s, up, j, c);
  }

  // ------------------------------------------------------------------ conditions

  ghost predicate SortedLevel(level: Level) {
    forall i, j :: 1 <= i <= j < |level| ==> level[i].key <= level[j].key
  }

  ghost predicate NoDup(level: Level) {
    forall i, j :: 0 <= i < j < |level| ==> level[i].child != level[j].child
  }

  ghost predicate Holds(level: Level, p: nat) {
    exists j :: 0 <= j < |level| && level[j].child == p
  }

  /** Every page is in one place of one level, and heightOf says in which level. */
  ghost predicate Placed(t: Tree) {
    && (forall i :: 0 <= i < |t.levels| ==> NoDup(t.levels[i]))
    && (forall i, j :: 0 <= i < |t.levels| && 0 <= j < |t.levels[i]| ==>
          t.levels[i][j].child in t.heightOf && t.heightOf[t.levels[i][j].child] == i)
    && (forall p :: p in t.heightOf ==> t.heightOf[p] < |t.levels| && Holds(t.levels[t.heightOf[p]], p))
  }

  /** Pages at height 0 are leaf pages, the others internal pages; page 0 is the
      root pointer. */
  ghost predicate Typed(s: Store, t: Tree) {
    && 0 !in t.heightOf
    && forall p :: p in t.heightOf ==>
         p in s && (if t.heightOf[p] == 0 then s[p].LeafPage? else s[p].InternalPage?)
  }

  /** The root pointer names the root, which is the only page of the last level. */
  ghost predicate Rooted(s: Store, t: Tree) {
    && |t.levels| > 0
    && 0 in s && s[0].RootPtrPage?
    && t.levels[|t.levels| - 1] == [Slot(0, s[0].root)]
    && s[0].rootCategory == (if |t.levels| == 1 then Leaf else Internal)
    && ParentOf(s, s[0].root) == 0
  }

  /** Every child of a node of the upper level names that node as its parent. */
  ghost predicate Parented(s: Store, up: Level) {
    forall j, c :: 0 <= j < |up| && 0 <= c < |SlotsOf(s, up[j].child)| ==>
      ParentOf(s, SlotsOf(s, up[j].child)[c].child) == up[j].child
  }

  ghost predicate Linked(s: Store, up: Level, down: Level) {
    && Expand(s, up) == down
    && Parented(s, up)
  }

  /** The fewest keys of a non-root internal page between operations. */
  function MinKeys(cap: nat): int {
    (cap + 1) / 2 - 1
  }

  /** The number of keys of an internal page is within bounds; ex is a page that has
      just lost a key. */
  ghost predicate KeyCount(slots: seq<Slot>, cap: nat, atRoot: bool, lost: bool) {
    && 2 <= |slots| <= cap + 1
    && (!atRoot ==> |slots| - 1 >= MinKeys(cap) - (if lost then 1 else 0))
  }

  /** The internal pages of level i have children of one category and a legal
      number of keys. */
  ghost predicate Filled(s: Store, t: Tree, i: nat, cap: nat, ex: nat)
    requires i < |t.levels|
  {
    forall j :: 0 <= j < |t.levels[i]| ==>
      && t.levels[i][j].child in s
      && s[t.levels[i][j].child].InternalPage?
      && s[t.levels[i][j].child].childCategory == (if i == 1 then Leaf else Internal)
      && KeyCount(SlotsOf(s, t.levels[i][j].child), cap, i == |t.levels| - 1, t.levels[i][j].child == ex)
  }

  /** Level i is legal, and expands to the level below it. */
  ghost predicate LevelOK(s: Store, t: Tree, i: nat, cap: nat, ex: nat)
    requires 0 < i < |t.levels|
  {
    Filled(s, t, i, cap, ex) && Linked(s, t.levels[i], t.levels[i - 1])
  }

  /** Level k hangs correctly from the root: all that a legal tree asks of the levels
      above k and of their links down to level k.  ex is a page that may have one
      key too few. */
  ghost predicate Above(s: Store, t: Tree, k: nat, cap: nat, ex: nat) {
    && k < |t.levels|
    && Rooted(s, t)
    && Placed(t)
    && Typed(s, t)
    && SortedLevel(t.levels[k])
    && (forall i :: k < i < |t.levels| ==> LevelOK(s, t, i, cap, ex))
  }

  /** The keys that separate the nodes of the upper level are among those of the lower. */
  lemma SortedUp(s: Store, up: Level, down: Level)
    requires Linked(s, up, down) && SortedLevel(down)
    requires forall j :: 0 <= j < |up| ==> SlotsOf(s, up[j].child) != []
    ensures SortedLevel(up)
  {
    forall i, j | 1 <= i <= j < |up|
      ensures up[i].key <= up[j].key
    {
      ChildAt(s, up, i, 0);
      ChildAt(s, up, j, 0);
      OffsetMonotone(s, up, 0, i);
      OffsetMonotone(s, up, i, j);
    }
  }

  lemma OffsetMonotone(s: Store, up: Level, i: nat, j: nat)
    requires i <= j <= |up|
    requires forall j :: 0 <= j < |up| ==> SlotsOf(s, up[j].child) != []
    ensures Offset(s, up, i) + (j - i) <= Offset(s, up, j)
    decreases j - i
  {
    if i < j {
      OffsetMonotone(s, up, i, j - 1);
      ExpandAt(s, up[..j], j - 1);
      assert up[..j][..j - 1] == up[..j - 1];
      assert up[..j][j..] == [];
    }
  }

  // ------------------------------------------------- inserting and removing nodes

  function InsertAfter(level: Level, j: nat, x: Slot): (r: Level)
    requires j < |level|
    ensures |r| == |level| + 1
    ensures forall i :: 0 <= i <= j ==> r[i] == level[i]
    ensures r[j + 1] == x
    ensures forall i :: j + 1 < i < |r| ==> r[i] == level[i - 1]
  {
    level[..j + 1] + [x] + level[j + 1..]
  }

  function RemoveAt(level: Level, j: nat): (r: Level)
    requires j < |level|
    ensures |r| == |level| - 1
    ensures forall i :: 0 <= i < j ==> r[i] == level[i]
    ensures forall i :: j <= i < |r| ==> r[i] == level[i + 1]
  {
    level[..j] + level[j + 1..]
  }

  /** The tree with page r placed to the right of node j of level k. */
  function InsertNode(t: Tree, k: nat, j: nat, key: int, r: nat): Tree
    requires k < |t.levels| && j < |t.levels[k]|
  {
    Tree(t.levels[k := InsertAfter(t.levels[k], j, Slot(key, r))], t.heightOf[r := k])
  }

  function RemoveNode(t: Tree, k: nat, j: nat): Tree
    requires k < |t.levels| && j < |t.levels[k]|
  {
    Tree(t.levels[k := RemoveAt(t.levels[k], j)], t.heightOf - {t.levels[k][j].child})
  }

  lemma PlacedInsert(t: Tree, k: nat, j: nat, key: int, r: nat)
    requires Placed(t) && k < |t.levels| && j < |t.levels[k]| && r !in t.heightOf
    ensures Placed(InsertNode(t, k, j, key, r))
  {
    var t' := InsertNode(t, k, j, key, r);
    var level, level' := t.levels[k], t'.levels[k];
    forall p | p in t'.heightOf
      ensures t'.heightOf[p] < |t'.levels| && Holds(t'.levels[t'.heightOf[p]], p)
    {
      if p == r {
        assert level'[j + 1].child == p;
      } else if t.heightOf[p] == k {
        assert Holds(level, p);
        var i :| 0 <= i < |level| && level[i].child == p;
        assert level'[if i <= j then i else i + 1].child == p;
      } else {
        assert Holds(t.levels[t.heightOf[p]], p);
      }
    }
    forall i, x | 0 <= i < |t'.levels| && 0 <= x < |t'.levels[i]|
      ensures t'.levels[i][x].child in t'.heightOf && t'.heightOf[t'.levels[i][x].child] == i
    {
      if i == k {
        assert x <= j ==> level'[x] == level[x];
        assert x > j + 1 ==> level'[x] == level[x - 1];
      } else {
        assert t.levels[i][x].child in t.heightOf;
      }
    }
    assert NoDup(level') by {
      assert NoDup(level);
      forall x, y | 0 <= x < y < |level'|
        ensures level'[x].child != level'[y].child
      {
        assert x <= j ==> level'[x] == level[x];
        assert x > j + 1 ==> level'[x] == level[x - 1];
        assert y <= j ==> level'[y] == level[y];
        assert y > j + 1 ==> level'[y] == level[y - 1];
      }
    }
  }

  lemma PlacedRemove(t: Tree, k: nat, j: nat)
    requires Placed(t) && k < |t.levels| && j < |t.levels[k]|
    ensures Placed(RemoveNode(t, k, j))
  {
    var t' := RemoveNode(t, k, j);
    var level, level' := t.levels[k], t'.levels[k];
    assert NoDup(level);
    forall p | p in t'.heightOf
      ensures t'.heightOf[p] < |t'.levels| && Holds(t'.levels[t'.heightOf[p]], p)
    {
      assert Holds(t.levels[t.heightOf[p]], p);
      if t.heightOf[p] == k {
        var i :| 0 <= i < |level| && level[i].child == p;
        assert level'[if i < j then i else i - 1].child == p;
      }
    }
    forall i, x | 0 <= i < |t'.levels| && 0 <= x < |t'.levels[i]|
      ensures t'.levels[i][x].child in t'.heightOf && t'.heightOf[t'.levels[i][x].child] == i
    {
      if i == k {
        assert level'[x] == level[if x < j then x else x + 1];
      } else {
        assert t.levels[i][x].child in t.heightOf;
        assert t.levels[k][j].child in t.heightOf;
      }
    }
  }

  // ------------------------------------------------------------------ links

  lemma LinkFrame(s: Store, s': Store, up: Level, down: Level)
    requires Linked(s, up, down)
    requires forall j :: 0 <= j < |up| ==> SlotsOf(s', up[j].child) == SlotsOf(s, up[j].child)
    requires forall j :: 0 <= j < |down| ==> ParentOf(s', down[j].child) == ParentOf(s, down[j].child)
    ensures Linked(s', up, down)
  {
    ExpandFrame(s, s', up);
    forall j, c | 0 <= j < |up| && 0 <= c < |SlotsOf(s', up[j].child)|
      ensures ParentOf(s', SlotsOf(s', up[j].child)[c].child) == up[j].child
    {
      ChildAt(s, up, j, c);
      assert ParentOf(s, SlotsOf(s, up[j].child)[c].child) == up[j].child;
    }
  }

  /** Only node u has other slots than before. */
  ghost predicate OthersSame(s: Store, s': Store, up: Level, down: Level, u: nat) {
    && (forall j :: 0 <= j < |up| && j != u ==> SlotsOf(s', up[j].child) == SlotsOf(s, up[j].child))
    && (forall j :: 0 <= j < |down| ==> ParentOf(s', down[j].child) == ParentOf(s, down[j].child))
  }

  lemma ExpandChange(s: Store, s': Store, up: Level, down: Level, u: nat)
    requires u < |up| && OthersSame(s, s', up, down, u)
    ensures Expand(s, up) == Expand(s, up[..u]) + Kids(s, up[u]) + Expand(s, up[u + 1..])
    ensures Expand(s', up) == Expand(s, up[..u]) + Kids(s', up[u]) + Expand(s, up[u + 1..])
  {
    ExpandAt(s, up, u);
    ExpandAt(s', up, u);
    ExpandFrame(s, s', up[..u]);
    ExpandFrame(s, s', up[u + 1..]);
  }

  /** Every child of the changed node is an old child of it, or names it as its parent. */
  lemma ParentedChange(s: Store, s': Store, up: Level, down: Level, u: nat)
    requires Linked(s, up, down) && u < |up| && OthersSame(s, s', up, down, u)
    requires forall d :: 0 <= d < |SlotsOf(s', up[u].child)| ==>
               || HasChild(SlotsOf(s, up[u].child), SlotsOf(s', up[u].child)[d].child)
               || ParentOf(s', SlotsOf(s', up[u].child)[d].child) == up[u].child
    ensures Parented(s', up)
  {
    forall j, d | 0 <= j < |up| && 0 <= d < |SlotsOf(s', up[j].child)|
      ensures ParentOf(s', SlotsOf(s', up[j].child)[d].child) == up[j].child
    {
      var child := SlotsOf(s', up[j].child)[d].child;
      if j != u || HasChild(SlotsOf(s, up[u].child), child) {
        var e :| 0 <= e < |SlotsOf(s, up[j].child)| && SlotsOf(s, up[j].child)[e].child == child;
        ChildAt(s, up, j, e);
      }
    }
  }

  lemma InsertInMiddle(a: Level, k: Level, b: Level, c: nat, x: Slot)
    requires c < |k|
    ensures a + InsertAfter(k, c, x) + b == InsertAfter(a + k + b, |a| + c, x)
  {
  }

  lemma RemoveInMiddle(a: Level, k: Level, b: Level, c: nat)
    requires c < |k|
    ensures a + RemoveAt(k, c) + b == RemoveAt(a + k + b, |a| + c)
  {
  }

  lemma RekeyInMiddle(a: Level, k: Level, b: Level, c: nat, x: Slot)
    requires c < |k|
    ensures a + k[c := x] + b == (a + k + b)[|a| + c := x]
    ensures (a + k + b)[|a| + c] == k[c]
  {
  }

  lemma RekeyInsert(key: int, slots: seq<Slot>, c: nat, x: Slot)
    requires c < |slots|
    ensures Rekey(key, InsertAfter(slots, c, x)) == InsertAfter(Rekey(key, slots), c, x)
  {
  }

  /** A new child r is put into node u, to the right of its child c. */
  lemma LinkInsert(s: Store, s': Store, up: Level, down: Level, u: nat, c: nat, x: Slot)
    requires Linked(s, up, down) && u < |up| && OthersSame(s, s', up, down, u)
    requires c < |SlotsOf(s, up[u].child)|
    requires SlotsOf(s', up[u].child) == InsertAfter(SlotsOf(s, up[u].child), c, x)
    requires ParentOf(s', x.child) == up[u].child
    ensures Offset(s, up, u) + c < |down|
    ensures Linked(s', up, InsertAfter(down, Offset(s, up, u) + c, x))
  {
    hide Expand, Rekey, Parented, InsertAfter;
    var slots, slots' := SlotsOf(s, up[u].child), SlotsOf(s', up[u].child);
    ExpandChange(s, s', up, down, u);
    RekeyInsert(up[u].key, slots, c, x);
    InsertInMiddle(Expand(s, up[..u]), Kids(s, up[u]), Expand(s, up[u + 1..]), c, x);
    forall d | 0 <= d < |slots'| && d != c + 1
      ensures HasChild(slots, slots'[d].child)
    {
      assert slots'[d] == slots[if d <= c then d else d - 1];
    }
    ParentedChange(s, s', up, down, u);
  }

  /** Child c of node u, not its first, is taken out. */
  lemma LinkRemove(s: Store, s': Store, up: Level, down: Level, u: nat, c: nat)
    requires Linked(s, up, down) && u < |up| && OthersSame(s, s', up, down, u)
    requires 0 < c < |SlotsOf(s, up[u].child)|
    requires SlotsOf(s', up[u].child) == RemoveAt(SlotsOf(s, up[u].child), c)
    ensures Offset(s, up, u) + c < |down|
    ensures Linked(s', up, RemoveAt(down, Offset(s, up, u) + c))
  {
    var slots, slots' := SlotsOf(s, up[u].child), SlotsOf(s', up[u].child);
    ExpandChange(s, s', up, down, u);
    assert Kids(s', up[u]) == RemoveAt(Kids(s, up[u]), c);
    RemoveInMiddle(Expand(s, up[..u]), Kids(s, up[u]), Expand(s, up[u + 1..]), c);
    forall d | 0 <= d < |slots'|
      ensures HasChild(slots, slots'[d].child)
    {
      assert slots'[d] == slots[if d < c then d else d + 1];
    }
    ParentedChange(s, s', up, down, u);
  }

  /** The key of slot c of node u, not its first, is changed. */
  lemma LinkRekey(s: Store, s': Store, up: Level, down: Level, u: nat, c: nat, key: int)
    requires Linked(s, up, down) && u < |up| && OthersSame(s, s', up, down, u)
    requires 0 < c < |SlotsOf(s, up[u].child)|
    requires SlotsOf(s', up[u].child) ==
             SlotsOf(s, up[u].child)[c := Slot(key, SlotsOf(s, up[u].child)[c].child)]
    ensures Offset(s, up, u) + c < |down|
    ensures var x := Offset(s, up, u) + c; Linked(s', up, down[x := Slot(key, down[x].child)])
  {
    var slots, slots' := SlotsOf(s, up[u].child), SlotsOf(s', up[u].child);
    ExpandChange(s, s', up, down, u);
    var kids := Kids(s, up[u]);
    var x := Slot(key, slots[c].child);
    assert Kids(s', up[u]) == kids[c := x];
    RekeyInMiddle(Expand(s, up[..u]), kids, Expand(s, up[u + 1..]), c, x);
    forall d | 0 <= d < |slots'|
      ensures HasChild(slots, slots'[d].child)
    {
      assert slots'[d].child == slots[d].child;
    }
    ParentedChange(s, s', up, down, u);
  }

  // --------------------------------------------------- moving cuts within a level

  lemma {:induction false} ParentedAppend(s: Store, a: Level, b: Level)
    requires Parented(s, a) && Parented(s, b)
    ensures Parented(s, a + b)
  {
    forall j, c | 0 <= j < |a + b| && 0 <= c < |SlotsOf(s, (a + b)[j].child)|
      ensures ParentOf(s, SlotsOf(s, (a + b)[j].child)[c].child) == (a + b)[j].child
    {
      if j < |a| {
        assert (a + b)[j] == a[j];
      } else {
        assert (a + b)[j] == b[j - |a|];
      }
    }
  }

  /** Nodes that keep their children keep being named as their parents. */
  lemma ParentedFrame(s: Store, s': Store, up: Level)
    requires Parented(s, up)
    requires forall j :: 0 <= j < |up| ==> SlotsOf(s', up[j].child) == SlotsOf(s, up[j].child)
    requires forall i :: 0 <= i < |Expand(s, up)| ==>
               ParentOf(s', Expand(s, up)[i].child) == ParentOf(s, Expand(s, up)[i].child)
    ensures Parented(s', up)
  {
    forall j, c | 0 <= j < |up| && 0 <= c < |SlotsOf(s', up[j].child)|
      ensures ParentOf(s', SlotsOf(s', up[j].child)[c].child) == up[j].child
    {
      ChildAt(s, up, j, c);
    }
  }

  lemma ExpandThree(s: Store, a: Level, m: Level, b: Level)
    ensures Expand(s, a + m + b) == Expand(s, a) + Expand(s, m) + Expand(s, b)
  {
    ExpandAppend(s, a + m, b);
    ExpandAppend(s, a, m);
  }

  /** What holds of every node of a level outside its middle holds of its two sides. */
  lemma SidesKeepParents(s: Store, s': Store, a: Level, m: Level, b: Level)
    requires NoDup(a + m + b)
    requires forall i :: 0 <= i < |a + m + b| && !Holds(m, (a + m + b)[i].child) ==>
               ParentOf(s', (a + m + b)[i].child) == ParentOf(s, (a + m + b)[i].child)
    ensures forall i :: 0 <= i < |a| ==> ParentOf(s', a[i].child) == ParentOf(s, a[i].child)
    ensures forall i :: 0 <= i < |b| ==> ParentOf(s', b[i].child) == ParentOf(s, b[i].child)
  {
    OutsideMiddle(a, m, b);
    forall i | 0 <= i < |a|
      ensures ParentOf(s', a[i].child) == ParentOf(s, a[i].child)
    {
      assert (a + m + b)[i] == a[i];
    }
    forall i | 0 <= i < |b|
      ensures ParentOf(s', b[i].child) == ParentOf(s, b[i].child)
    {
      assert (a + m + b)[|a + m| + i] == b[i];
    }
  }

  /** The nodes m of a level are replaced by the nodes m', which expand to the same:
      the level below does not change. */
  lemma LinkRegroup(s: Store, s': Store, a: Level, m: Level, m': Level, b: Level, down: Level)
    requires Linked(s, a + m + b, down) && NoDup(down)
    requires Expand(s', m') == Expand(s, m) && Parented(s', m')
    requires forall j :: 0 <= j < |a| ==> SlotsOf(s', a[j].child) == SlotsOf(s, a[j].child)
    requires forall j :: 0 <= j < |b| ==> SlotsOf(s', b[j].child) == SlotsOf(s, b[j].child)
    requires forall i :: 0 <= i < |down| && !Holds(Expand(s, m), down[i].child) ==>
               ParentOf(s', down[i].child) == ParentOf(s, down[i].child)
    ensures Linked(s', a + m' + b, down)
  {
    ExpandThree(s, a, m, b);
    ExpandThree(s', a, m', b);
    ExpandFrame(s, s', a);
    ExpandFrame(s, s', b);
    SidesKeepParents(s, s', Expand(s, a), Expand(s, m), Expand(s, b));
    ParentedParts(s, a, m, b);
    ParentedFrame(s, s', a);
    ParentedFrame(s, s', b);
    ParentedAppend(s', a, m');
    ParentedAppend(s', a + m', b);
  }

  lemma ParentedParts(s: Store, a: Level, m: Level, b: Level)
    requires Parented(s, a + m + b)
    ensures Parented(s, a) && Parented(s, b)
  {
    var up := a + m + b;
    forall j, c | 0 <= j < |a| && 0 <= c < |SlotsOf(s, a[j].child)|
      ensures ParentOf(s, SlotsOf(s, a[j].child)[c].child) == a[j].child
    {
      assert up[j] == a[j];
    }
    forall j, c | 0 <= j < |b| && 0 <= c < |SlotsOf(s, b[j].child)|
      ensures ParentOf(s, SlotsOf(s, b[j].child)[c].child) == b[j].child
    {
      assert up[|a + m| + j] == b[j];
    }
  }

  lemma OutsideMiddle(a: Level, m: Level, b: Level)
    requires NoDup(a + m + b)
    ensures forall i :: 0 <= i < |a| ==> !Holds(m, a[i].child)
    ensures forall i :: 0 <= i < |b| ==> !Holds(m, b[i].child)
  {
    var l := a + m + b;
    forall i, j | 0 <= i < |a| && 0 <= j < |m|
      ensures a[i].child != m[j].child
    {
      assert l[i] == a[i] && l[|a| + j] == m[j];
    }
    forall i, j | 0 <= i < |b| && 0 <= j < |m|
      ensures b[i].child != m[j].child
    {
      assert l[|a + m| + i] == b[i] && l[|a| + j] == m[j];
    }
  }
}
