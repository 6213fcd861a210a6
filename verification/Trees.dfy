/** What the structural steps of a B+ tree file do to its shape: the value-level
    counterpart of the methods of BTreeFile. */
module Trees {
  import opened Pages
  import opened Levels

  lemma ChildIndex(x: seq<Slot>, p: nat) returns (d: nat)
    requires HasChild(x, p)
    ensures d < |x| && x[d].child == p
  {
    d :| 0 <= d < |x| && x[d].child == p;
  }

  /** Every child in slots now names q as its parent; nothing else changed. */
  ghost predicate Reparented(s: Store, s': Store, q: nat, slots: seq<Slot>) {
    && s'.Keys == s.Keys
    && forall p :: p in s ==> s'[p] == (if HasChild(slots, p) then WithParent(s[p], q) else s[p])
  }

  lemma ReparentedNext(s: Store, s1: Store, s2: Store, q: nat, slots: seq<Slot>, x: Slot)
    requires Reparented(s, s1, q, slots) && x.child in s1
    requires s2 == s1[x.child := WithParent(s1[x.child], q)]
    ensures Reparented(s, s2, q, slots + [x])
  {
    var more := slots + [x];
    forall p | p in s
      ensures s2[p] == if HasChild(more, p) then WithParent(s[p], q) else s[p]
    {
      if HasChild(slots, p) {
        var c :| 0 <= c < |slots| && slots[c].child == p;
        assert more[c].child == p;
      } else if p == x.child {
        assert more[|slots|].child == p;
      } else {
        assert !HasChild(more, p);
      }
    }
  }

  /** The children among slots whose parent is not q. */
  function Strays(s: Store, q: nat, slots: seq<Slot>): (r: set<nat>)
    ensures forall p :: p in r <==> exists c :: 0 <= c < |slots| && slots[c].child == p && ParentOf(s, p) != q
  {
    set c | 0 <= c < |slots| && ParentOf(s, slots[c].child) != q :: slots[c].child
  }

  lemma StraysNext(s: Store, q: nat, slots: seq<Slot>, x: Slot)
    ensures Strays(s, q, slots + [x]) == Strays(s, q, slots) + if ParentOf(s, x.child) == q then {} else {x.child}
  {
    var more := slots + [x];
    forall p
      ensures p in Strays(s, q, more) <==> p in Strays(s, q, slots) || (p == x.child && ParentOf(s, p) != q)
    {
      if p in Strays(s, q, slots) {
        var c :| 0 <= c < |slots| && slots[c].child == p && ParentOf(s, p) != q;
        assert more[c].child == p;
      }
      if p == x.child {
        assert more[|slots|].child == p;
      }
    }
  }

  /** A child not among the slots that were given parent q has the parent it had. */
  lemma StrayAgain(s: Store, s1: Store, q: nat, slots: seq<Slot>, x: Slot)
    requires Reparented(s, s1, q, slots) && x.child in s && IsTreePage(s[x.child])
    ensures ParentOf(s1, x.child) != q ==> ParentOf(s, x.child) != q
    ensures ParentOf(s1, x.child) == q && ParentOf(s, x.child) != q ==> x.child in Strays(s, q, slots)
  {
    if HasChild(slots, x.child) {
      var c :| 0 <= c < |slots| && slots[c].child == x.child;
    }
  }

  /** Pages q and r have new values; no other page changed. */
  ghost predicate PairChanged(s: Store, s': Store, q: nat, pageQ: Page, r: nat, pageR: Page) {
    && s'.Keys == s.Keys && q in s && r in s
    && s'[q] == pageQ && s'[r] == pageR
    && forall p :: p in s && p != q && p != r ==> s'[p] == s[p]
  }

  // ------------------------------------------------------------------ frames of Above

  /** The pages of the levels above k, and the parents of level k, are as they were. */
  ghost predicate AboveSame(s: Store, s': Store, t: Tree, k: nat) {
    && 0 in s' && 0 in s && s'[0].RootPtrPage? && s[0].RootPtrPage?
    && s'[0].root == s[0].root && s'[0].rootCategory == s[0].rootCategory
    && (forall p :: p in t.heightOf && t.heightOf[p] > k ==> p in s && p in s' && s'[p] == s[p])
    && (forall p :: p in t.heightOf && t.heightOf[p] == k ==> ParentOf(s', p) == ParentOf(s, p))
    && (forall p :: p in t.heightOf && t.heightOf[p] <= k ==>
          p in s && p in s' && s'[p].LeafPage? == s[p].LeafPage? && s'[p].InternalPage? == s[p].InternalPage?)
  }

  lemma LevelHeight(t: Tree, i: nat, j: nat)
    requires Placed(t) && i < |t.levels| && j < |t.levels[i]|
    ensures t.levels[i][j].child in t.heightOf && t.heightOf[t.levels[i][j].child] == i
  {
  }

  lemma RootHeight(s: Store, t: Tree)
    requires Placed(t) && Rooted(s, t)
    ensures s[0].root in t.heightOf && t.heightOf[s[0].root] == |t.levels| - 1
  {
    var top := t.levels[|t.levels| - 1];
    assert top[0].child == s[0].root;
  }

  lemma FilledFrame(s: Store, s': Store, t: Tree, i: nat, cap: nat, ex: nat)
    requires i < |t.levels| && Filled(s, t, i, cap, ex)
    requires forall j :: 0 <= j < |t.levels[i]| ==>
               t.levels[i][j].child in s' && s'[t.levels[i][j].child] == s[t.levels[i][j].child]
    ensures Filled(s', t, i, cap, ex)
  {
    var level := t.levels[i];
    forall j | 0 <= j < |level|
      ensures SlotsOf(s', level[j].child) == SlotsOf(s, level[j].child)
    {
    }
  }

  lemma LevelFrame(s: Store, s': Store, t: Tree, k: nat, i: nat)
    requires Placed(t) && AboveSame(s, s', t, k) && k < i < |t.levels|
    requires Linked(s, t.levels[i], t.levels[i - 1])
    ensures Linked(s', t.levels[i], t.levels[i - 1])
    ensures forall j :: 0 <= j < |t.levels[i]| ==>
              && t.levels[i][j].child in s && t.levels[i][j].child in s'
              && s'[t.levels[i][j].child] == s[t.levels[i][j].child]
  {
    var up, down := t.levels[i], t.levels[i - 1];
    forall j | 0 <= j < |up|
      ensures up[j].child in s && up[j].child in s' && s'[up[j].child] == s[up[j].child]
    {
      LevelHeight(t, i, j);
    }
    forall j | 0 <= j < |down|
      ensures ParentOf(s', down[j].child) == ParentOf(s, down[j].child)
    {
      LevelHeight(t, i - 1, j);
    }
    LinkFrame(s, s', up, down);
  }

  lemma LevelOKFrame(s: Store, s': Store, t: Tree, k: nat, i: nat, cap: nat, ex: nat)
    requires Placed(t) && AboveSame(s, s', t, k) && k < i < |t.levels|
    requires LevelOK(s, t, i, cap, ex)
    ensures LevelOK(s', t, i, cap, ex)
  {
    LevelFrame(s, s', t, k, i);
    FilledFrame(s, s', t, i, cap, ex);
  }

  lemma AboveFrame(s: Store, s': Store, t: Tree, k: nat, cap: nat, ex: nat)
    requires Above(s, t, k, cap, ex) && AboveSame(s, s', t, k)
    ensures Above(s', t, k, cap, ex)
  {
    RootHeight(s, t);
    forall i | k < i < |t.levels|
      ensures LevelOK(s', t, i, cap, ex)
    {
      LevelOKFrame(s, s', t, k, i, cap, ex);
    }
  }

  // ------------------------------------------------- a new child in a page with room

  /** What a legal tree says of a level and the level above it. */
  lemma LevelBelow(s: Store, t: Tree, k: nat, cap: nat, ex: nat)
    requires Above(s, t, k, cap, ex) && k + 1 < |t.levels|
    ensures Linked(s, t.levels[k + 1], t.levels[k]) && Expand(s, t.levels[k + 1]) == t.levels[k]
    ensures SortedLevel(t.levels[k]) && NoDup(t.levels[k]) && NoDup(t.levels[k + 1])
    ensures Filled(s, t, k + 1, cap, ex) && Placed(t) && Typed(s, t) && Rooted(s, t)
  {
    assert LevelOK(s, t, k + 1, cap, ex);
  }

  /** Child c of node u of level k + 1 is node j of level k, and names u as its parent. */
  lemma ChildHeight(s: Store, t: Tree, k: nat, cap: nat, ex: nat, u: nat, c: nat)
    requires Above(s, t, k, cap, ex) && k + 1 < |t.levels| && u < |t.levels[k + 1]|
    requires c < |SlotsOf(s, t.levels[k + 1][u].child)|
    ensures var q, j := t.levels[k + 1][u].child, Offset(s, t.levels[k + 1], u) + c;
            && q in t.heightOf && t.heightOf[q] == k + 1 && q in s && s[q].InternalPage?
            && j < |t.levels[k]| && t.levels[k][j].child == SlotsOf(s, q)[c].child
            && SlotsOf(s, q)[c].child in t.heightOf && t.heightOf[SlotsOf(s, q)[c].child] == k
            && ParentOf(s, SlotsOf(s, q)[c].child) == q
            && (c > 0 ==> t.levels[k][j] == SlotsOf(s, q)[c])
  {
    hide Above, Placed, Typed, Rooted, Expand, Offset, SortedLevel, NoDup, KeyCount;
    LevelBelow(s, t, k, cap, ex);
    ChildAt(s, t.levels[k + 1], u, c);
    LevelHeight(t, k, Offset(s, t.levels[k + 1], u) + c);
    LevelHeight(t, k + 1, u);
  }

  /** The store after (key, r) went into page q and the children of q were updated. */
  ghost predicate ChildAdded(s: Store, s': Store, q: nat, c: nat, key: int, r: nat)
    requires c < |SlotsOf(s, q)|
  {
    && s'.Keys == s.Keys && q in s && s[q].InternalPage? && r in s && r != q
    && s'[q] == s[q].(slots := InsertAfter(SlotsOf(s, q), c, Slot(key, r)))
    && s'[r] == WithParent(s[r], q)
    && forall p :: p in s && p != q && p != r ==> s'[p] == s[p]
  }

  /** insertEntry into q followed by updateParentPointers(q) changes only q and r. */
  lemma ReparentedAdds(s: Store, s1: Store, s2: Store, t: Tree, k: nat, cap: nat, u: nat, c: nat, key: int, r: nat)
    requires Above(s, t, k, cap, 0) && k + 1 < |t.levels| && u < |t.levels[k + 1]|
    requires c < |SlotsOf(s, t.levels[k + 1][u].child)|
    requires r !in t.heightOf && r in s
    requires t.levels[k + 1][u].child in s && s[t.levels[k + 1][u].child].InternalPage?
    requires var q := t.levels[k + 1][u].child;
             && s1 == s[q := s[q].(slots := InsertAfter(SlotsOf(s, q), c, Slot(key, r)))]
             && Reparented(s1, s2, q, SlotsOf(s1, q))
    ensures ChildAdded(s, s2, t.levels[k + 1][u].child, c, key, r)
  {
    var q := t.levels[k + 1][u].child;
    var slots, slots' := SlotsOf(s, q), SlotsOf(s1, q);
    LevelHeight(t, k + 1, u);
    assert HasChild(slots', r) by { assert slots'[c + 1].child == r; }
    forall p | HasChild(slots', p) && p != r
      ensures p != q && p in s && WithParent(s[p], q) == s[p]
    {
      var d :| 0 <= d < |slots'| && slots'[d].child == p;
      var d' := if d <= c then d else d - 1;
      assert slots'[d] == slots[d'];
      ChildHeight(s, t, k, cap, 0, u, d');
    }
  }

  lemma FilledInsert(s: Store, s': Store, t: Tree, t': Tree, i: nat, u: nat, cap: nat)
    requires Placed(t) && i < |t.levels| && |t'.levels| == |t.levels| && t'.levels[i] == t.levels[i]
    requires u < |t.levels[i]| && Filled(s, t, i, cap, 0)
    requires s'.Keys == s.Keys
    requires var q := t.levels[i][u].child;
             && s'[q].InternalPage? && s'[q].childCategory == s[q].childCategory
             && |SlotsOf(s, q)| <= |SlotsOf(s', q)| <= cap + 1
    requires forall j :: 0 <= j < |t.levels[i]| && j != u ==>
               t.levels[i][j].child in s && s'[t.levels[i][j].child] == s[t.levels[i][j].child]
    ensures Filled(s', t', i, cap, 0)
  {
    var level := t.levels[i];
    forall j | 0 <= j < |level| && j != u
      ensures SlotsOf(s', level[j].child) == SlotsOf(s, level[j].child)
    {
    }
  }

  lemma SortedInsertAfter(level: Level, j: nat, x: Slot)
    requires SortedLevel(level) && j < |level|
    requires j > 0 ==> level[j].key <= x.key
    requires j + 1 < |level| ==> x.key <= level[j + 1].key
    ensures SortedLevel(InsertAfter(level, j, x))
  {
    var l := InsertAfter(level, j, x);
    forall a, b | 1 <= a <= b < |l|
      ensures l[a].key <= l[b].key
    {
      assert a <= j ==> l[a] == level[a];
      assert a > j + 1 ==> l[a] == level[a - 1];
      assert b <= j ==> l[b] == level[b];
      assert b > j + 1 ==> l[b] == level[b - 1];
      if a <= j + 1 <= b {
        if a <= j { assert level[a].key <= level[j].key; }
        if j + 1 < b { assert level[j + 1].key <= level[b - 1].key; }
      }
    }
  }

  /** Key and page r go into node u of level k + 1, to the right of its child c. */
  ghost predicate Inserting(s: Store, s': Store, t: Tree, k: nat, cap: nat, u: nat, c: nat, key: int, r: nat) {
    && Above(s, t, k, cap, 0) && k + 1 < |t.levels| && u < |t.levels[k + 1]|
    && c < |SlotsOf(s, t.levels[k + 1][u].child)| <= cap
    && r !in t.heightOf && r != 0 && r in s && (if k == 0 then s[r].LeafPage? else s[r].InternalPage?)
    && ChildAdded(s, s', t.levels[k + 1][u].child, c, key, r)
    && var level, j := t.levels[k], Offset(s, t.levels[k + 1], u) + c;
       && j < |level|
       && (j > 0 ==> level[j].key <= key)
       && (j + 1 < |level| ==> key <= level[j + 1].key)
  }

  lemma OneNodeChanged(s: Store, s': Store, t: Tree, k: nat, q: nat, r: nat)
    requires Typed(s, t) && q in t.heightOf && t.heightOf[q] == k && r !in t.heightOf && r != 0
    requires 0 in s && s[0].RootPtrPage? && s'.Keys == s.Keys
    requires forall p :: p in s && p != q && p != r ==> s'[p] == s[p]
    requires ParentOf(s', q) == ParentOf(s, q)
    requires s'[q].LeafPage? == s[q].LeafPage? && s'[q].InternalPage? == s[q].InternalPage?
    ensures AboveSame(s, s', t, k)
  {
  }

  /** Pages other than q and r are as before; q is on one place of the upper level. */
  lemma OthersSameExcept(s: Store, s': Store, t: Tree, k: nat, u: nat, r: nat, up: Level, down: Level)
    requires Placed(t) && Typed(s, t) && k + 1 < |t.levels| && up == t.levels[k + 1] && down == t.levels[k]
    requires u < |up| && r !in t.heightOf
    requires forall p :: p in s && p != up[u].child && p != r ==> p in s' && s'[p] == s[p]
    ensures OthersSame(s, s', up, down, u)
    ensures forall x :: 0 <= x < |up| && x != u ==>
              up[x].child in s && up[x].child in s' && s'[up[x].child] == s[up[x].child]
  {
    LevelHeight(t, k + 1, u);
    assert NoDup(up);
    forall x | 0 <= x < |up| && x != u
      ensures up[x].child in s && up[x].child in s' && s'[up[x].child] == s[up[x].child]
      ensures SlotsOf(s', up[x].child) == SlotsOf(s, up[x].child)
    {
      LevelHeight(t, k + 1, x);
    }
    forall x | 0 <= x < |down|
      ensures ParentOf(s', down[x].child) == ParentOf(s, down[x].child)
    {
      LevelHeight(t, k, x);
    }
  }

  lemma InsertingLevels(s: Store, s': Store, t: Tree, k: nat, cap: nat, u: nat, c: nat, key: int, r: nat, t': Tree)
    requires Inserting(s, s', t, k, cap, u, c, key, r)
    requires t' == InsertNode(t, k, Offset(s, t.levels[k + 1], u) + c, key, r)
    ensures forall i :: k < i < |t'.levels| ==> LevelOK(s', t', i, cap, 0)
  {
    hide Filled, Linked, SortedLevel, NoDup, Expand, Offset, Holds;
    LevelHeight(t, k + 1, u);
    OneNodeChanged(s, s', t, k + 1, t.levels[k + 1][u].child, r);
    InsertingLevel(s, s', t, k, cap, u, c, key, r, t');
    forall i | k + 1 < i < |t'.levels|
      ensures LevelOK(s', t', i, cap, 0)
    {
      LevelOKFrame(s, s', t, k + 1, i, cap, 0);
      SameLevelOK(s', t, t', i, cap);
    }
  }

  lemma SameLevelOK(s: Store, t: Tree, t': Tree, i: nat, cap: nat)
    requires 0 < i < |t.levels| == |t'.levels| && t'.levels[i] == t.levels[i] && t'.levels[i - 1] == t.levels[i - 1]
    requires LevelOK(s, t, i, cap, 0)
    ensures LevelOK(s, t', i, cap, 0)
  {
    hide Linked, KeyCount;
  }

  lemma InsertingLevel(s: Store, s': Store, t: Tree, k: nat, cap: nat, u: nat, c: nat, key: int, r: nat, t': Tree)
    requires Inserting(s, s', t, k, cap, u, c, key, r)
    requires t' == InsertNode(t, k, Offset(s, t.levels[k + 1], u) + c, key, r)
    ensures LevelOK(s', t', k + 1, cap, 0)
  {
    hide Above, Placed, Typed, Rooted, Filled, Linked, SortedLevel, NoDup, Expand, Offset, Holds, OthersSame, InsertAfter;
    var up, down := t.levels[k + 1], t.levels[k];
    LevelBelow(s, t, k, cap, 0);
    LevelHeight(t, k + 1, u);
    OthersSameExcept(s, s', t, k, u, r, up, down);
    FilledInsert(s, s', t, t', k + 1, u, cap);
    LinkInsert(s, s', up, down, u, c, Slot(key, r));
  }

  lemma AddedTyped(s: Store, s': Store, t: Tree, k: nat, q: nat, c: nat, key: int, r: nat, t': Tree)
    requires Typed(s, t) && t'.heightOf == t.heightOf[r := k] && r != 0
    requires c < |SlotsOf(s, q)| && ChildAdded(s, s', q, c, key, r)
    requires q in t.heightOf && r !in t.heightOf && (if k == 0 then s[r].LeafPage? else s[r].InternalPage?)
    ensures Typed(s', t')
  {
  }

  lemma AddedRooted(s: Store, s': Store, t: Tree, q: nat, c: nat, key: int, r: nat, t': Tree)
    requires Rooted(s, t) && |t'.levels| == |t.levels|
    requires t'.levels[|t.levels| - 1] == t.levels[|t.levels| - 1]
    requires c < |SlotsOf(s, q)| && ChildAdded(s, s', q, c, key, r)
    requires q != 0 && r != 0 && s[0].root != r
    ensures Rooted(s', t')
  {
    assert ParentOf(s', s[0].root) == ParentOf(s, s[0].root);
  }

  lemma InsertChild(s: Store, s': Store, t: Tree, k: nat, cap: nat, u: nat, c: nat, key: int, r: nat, t': Tree)
    requires Inserting(s, s', t, k, cap, u, c, key, r)
    requires t' == InsertNode(t, k, Offset(s, t.levels[k + 1], u) + c, key, r)
    ensures Above(s', t', k, cap, 0)
  {
    var j := Offset(s, t.levels[k + 1], u) + c;
    LevelHeight(t, k + 1, u);
    RootHeight(s, t);
    AddedTyped(s, s', t, k, t.levels[k + 1][u].child, c, key, r, t');
    AddedRooted(s, s', t, t.levels[k + 1][u].child, c, key, r, t');
    InsertingLevels(s, s', t, k, cap, u, c, key, r, t');
    PlacedInsert(t, k, j, key, r);
    SortedInsertAfter(t.levels[k], j, Slot(key, r));
  }

  // ------------------------------------------------- one node becomes two

  /** Where splitInternalPage cuts a full page of cap keys: the key of this slot goes up. */
  function Cut(cap: nat): nat {
    cap / 2 + 1
  }

  lemma CutBounds(cap: nat)
    requires cap >= 3
    ensures 2 <= Cut(cap) < cap && (cap + 1) / 2 - 1 == cap - Cut(cap)
  {
  }

  function LeftHalf(slots: seq<Slot>, cut: nat): seq<Slot>
    requires cut < |slots|
  {
    slots[..cut]
  }

  function RightHalf(slots: seq<Slot>, cut: nat): (r: seq<Slot>)
    requires cut < |slots|
    ensures |r| == |slots| - cut
  {
    [Slot(0, slots[cut].child)] + slots[cut + 1..]
  }

  lemma LeftHalfShorter(slots: seq<Slot>, cut: nat)
    requires cut < |slots|
    ensures slots[..cut + 1][..cut] == LeftHalf(slots, cut)
  {
  }

  /** The key a full page pushes up when it is split. */
  function Pushed(s: Store, q: nat, cap: nat): int
    requires |SlotsOf(s, q)| == cap + 1 && cap > 0
  {
    SlotsOf(s, q)[Cut(cap)].key
  }

  lemma HalvesRejoin(lo: int, slots: seq<Slot>, cut: nat)
    requires 0 < cut < |slots|
    ensures Rekey(lo, LeftHalf(slots, cut)) + Rekey(slots[cut].key, RightHalf(slots, cut)) == Rekey(lo, slots)
  {
    assert slots == slots[..cut] + [slots[cut]] + slots[cut + 1..];
  }

  /** s' is s with node u of level k + 1 cut in two, its right half in page r. */
  ghost predicate CutInTwo(s: Store, s': Store, up: Level, down: Level, u: nat, cut: nat, r: nat) {
    && u < |up| && 0 < cut < |SlotsOf(s, up[u].child)|
    && SlotsOf(s', up[u].child) == LeftHalf(SlotsOf(s, up[u].child), cut)
    && SlotsOf(s', r) == RightHalf(SlotsOf(s, up[u].child), cut)
    && (forall j :: 0 <= j < |up| && j != u ==> SlotsOf(s', up[j].child) == SlotsOf(s, up[j].child))
    && (forall x :: 0 <= x < |down| ==>
          ParentOf(s', down[x].child) ==
          if HasChild(RightHalf(SlotsOf(s, up[u].child), cut), down[x].child) then r
          else ParentOf(s, down[x].child))
  }

  /** The children of a node are distinct, and those with a key on their left are sorted. */
  lemma KidsDistinct(s: Store, up: Level, down: Level, u: nat)
    requires Expand(s, up) == down && NoDup(down) && u < |up|
    ensures DistinctChildren(SlotsOf(s, up[u].child))
  {
    var slots := SlotsOf(s, up[u].child);
    forall d, e | 0 <= d < e < |slots|
      ensures slots[d].child != slots[e].child
    {
      ChildAt(s, up, u, d);
      ChildAt(s, up, u, e);
    }
  }

  lemma RightHalfChildren(slots: seq<Slot>, cut: nat)
    requires 0 < cut < |slots| && DistinctChildren(slots)
    ensures forall d :: 0 <= d < |slots| ==> (HasChild(RightHalf(slots, cut), slots[d].child) <==> cut <= d)
  {
    var right := RightHalf(slots, cut);
    forall e | 0 <= e < |right|
      ensures right[e].child == slots[cut + e].child
    {
    }
    forall d | cut <= d < |slots|
      ensures HasChild(right, slots[d].child)
    {
      assert right[d - cut].child == slots[d].child;
    }
  }

  lemma CutParents(s: Store, s': Store, up: Level, down: Level, u: nat, cut: nat, r: nat)
    requires Linked(s, up, down) && NoDup(down) && CutInTwo(s, s', up, down, u, cut, r)
    ensures forall d :: 0 <= d < |SlotsOf(s, up[u].child)| ==>
              ParentOf(s', SlotsOf(s, up[u].child)[d].child) == if d < cut then up[u].child else r
  {
    var slots := SlotsOf(s, up[u].child);
    KidsDistinct(s, up, down, u);
    RightHalfChildren(slots, cut);
    forall d | 0 <= d < |slots|
      ensures ParentOf(s', slots[d].child) == if d < cut then up[u].child else r
    {
      ChildAt(s, up, u, d);
      assert ParentOf(s, SlotsOf(s, up[u].child)[d].child) == up[u].child;
    }
  }

  lemma CutParented(s: Store, s': Store, up: Level, down: Level, u: nat, cut: nat, r: nat, key: int)
    requires Linked(s, up, down) && NoDup(down) && CutInTwo(s, s', up, down, u, cut, r)
    ensures Parented(s', [up[u], Slot(key, r)])
  {
    var slots := SlotsOf(s, up[u].child);
    CutParents(s, s', up, down, u, cut, r);
    var m' := [up[u], Slot(key, r)];
    forall j, c | 0 <= j < |m'| && 0 <= c < |SlotsOf(s', m'[j].child)|
      ensures ParentOf(s', SlotsOf(s', m'[j].child)[c].child) == m'[j].child
    {
      if j == 0 {
        assert SlotsOf(s', up[u].child)[c] == slots[c];
      } else {
        assert SlotsOf(s', r)[c].child == slots[cut + c].child;
      }
    }
  }

  lemma CutLinked(s: Store, s': Store, up: Level, down: Level, u: nat, cut: nat, r: nat)
    requires Linked(s, up, down) && NoDup(down) && CutInTwo(s, s', up, down, u, cut, r)
    ensures Linked(s', InsertAfter(up, u, Slot(SlotsOf(s, up[u].child)[cut].key, r)), down)
  {
    var slots := SlotsOf(s, up[u].child);
    var x := Slot(slots[cut].key, r);
    var a, m, m', b := up[..u], [up[u]], [up[u], x], up[u + 1..];
    assert up == a + m + b;
    assert InsertAfter(up, u, x) == a + m' + b;
    ExpandTwo(s', up[u], x);
    ExpandSingle(s, up[u]);
    HalvesRejoin(up[u].key, slots, cut);
    CutParented(s, s', up, down, u, cut, r, x.key);
    RightHalfHeld(up[u].key, slots, cut);
    LinkRegroup(s, s', a, m, m', b, down);
  }

  lemma RightHalfHeld(lo: int, slots: seq<Slot>, cut: nat)
    requires 0 < cut < |slots|
    ensures forall p :: HasChild(RightHalf(slots, cut), p) ==> Holds(Rekey(lo, slots), p)
  {
    var right := RightHalf(slots, cut);
    forall p | HasChild(right, p)
      ensures Holds(Rekey(lo, slots), p)
    {
      var e :| 0 <= e < |right| && right[e].child == p;
      assert Rekey(lo, slots)[cut + e].child == p;
    }
  }

  lemma ExpandTwo(s: Store, x: Slot, y: Slot)
    ensures Expand(s, [x, y]) == Kids(s, x) + Kids(s, y)
  {
    assert [x, y] == [x] + [y];
    ExpandAppend(s, [x], [y]);
    ExpandSingle(s, x);
    ExpandSingle(s, y);
  }

  /** The internal pages of a level keep their category and, but for two, their size. */
  lemma FilledCut(s: Store, s': Store, t: Tree, t': Tree, i: nat, cap: nat, u: nat, x: Slot)
    requires i < |t.levels| && i + 1 < |t'.levels| && Filled(s, t, i, cap, 0) && u < |t.levels[i]|
    requires t'.levels[i] == InsertAfter(t.levels[i], u, x)
    requires i < |t.levels| - 1 || |t.levels[i]| == 1
    requires forall j :: 0 <= j < |t.levels[i]| ==> t.levels[i][j].child != 0
    requires forall j :: 0 <= j < |t'.levels[i]| ==>
               && t'.levels[i][j].child in s' && s'[t'.levels[i][j].child].InternalPage?
               && s'[t'.levels[i][j].child].childCategory == (if i == 1 then Leaf else Internal)
    requires forall j :: 0 <= j < |t.levels[i]| && j != u ==>
               SlotsOf(s', t.levels[i][j].child) == SlotsOf(s, t.levels[i][j].child)
    requires KeyCount(SlotsOf(s', t.levels[i][u].child), cap, false, false)
    requires KeyCount(SlotsOf(s', x.child), cap, false, false)
    ensures Filled(s', t', i, cap, 0)
  {
    var level, level' := t.levels[i], t'.levels[i];
    forall j | 0 <= j < |level'|
      ensures KeyCount(SlotsOf(s', level'[j].child), cap, false, false)
    {
      if j != u && j != u + 1 {
        var j' := if j < u then j else j - 1;
        assert level'[j] == level[j'];
        assert KeyCount(SlotsOf(s, level[j'].child), cap, i == |t.levels| - 1, level[j'].child == 0);
      }
    }
  }

  lemma HalvesCount(slots: seq<Slot>, cap: nat)
    requires |slots| == cap + 1 && cap >= 3
    ensures 0 < Cut(cap) < |slots|
    ensures KeyCount(LeftHalf(slots, Cut(cap)), cap, false, false)
    ensures KeyCount(RightHalf(slots, Cut(cap)), cap, false, false)
  {
  }

  /** Node u of level k + 1 was cut in two and the new node put among the levels above:
      the tree is legal again down to level k, which is unchanged. */
  lemma SplitDone(s: Store, s': Store, t: Tree, t': Tree, k: nat, cap: nat, u: nat, r: nat)
    requires Above(s, t, k, cap, 0) && k + 1 < |t.levels| && cap >= 3
    requires NoDup(t.levels[k]) && u < |t.levels[k + 1]|
    requires |SlotsOf(s, t.levels[k + 1][u].child)| == cap + 1
    requires CutInTwo(s, s', t.levels[k + 1], t.levels[k], u, Cut(cap), r)
    requires Above(s', t', k + 1, cap, 0) && t'.levels[k] == t.levels[k]
    requires t'.levels[k + 1] ==
             InsertAfter(t.levels[k + 1], u, Slot(SlotsOf(s, t.levels[k + 1][u].child)[Cut(cap)].key, r))
    requires forall p :: p in t'.heightOf && t'.heightOf[p] == k + 1 ==>
               s'[p].childCategory == (if k == 0 then Leaf else Internal)
    ensures Above(s', t', k, cap, 0)
  {
    var up, down := t.levels[k + 1], t.levels[k];
    var slots := SlotsOf(s, up[u].child);
    var x := Slot(slots[Cut(cap)].key, r);
    assert LevelOK(s, t, k + 1, cap, 0);
    CutLinked(s, s', up, down, u, Cut(cap), r);
    HalvesCount(slots, cap);
    SplitFilled(s, s', t, t', k + 1, cap, u, x);
    assert LevelOK(s', t', k + 1, cap, 0);
  }

  lemma NotTop(s: Store, t: Tree, i: nat)
    requires Rooted(s, t) && i < |t.levels| && |t.levels[i]| > 1
    ensures i + 1 < |t.levels|
  {
  }

  lemma TopSingle(s: Store, t: Tree, i: nat)
    requires Rooted(s, t) && i < |t.levels|
    ensures i == |t.levels| - 1 ==> |t.levels[i]| == 1
  {
  }

  lemma SplitFilled(s: Store, s': Store, t: Tree, t': Tree, i: nat, cap: nat, u: nat, x: Slot)
    requires Rooted(s, t) && Placed(t) && Typed(s, t) && i < |t.levels| && i < |t'.levels|
    requires Filled(s, t, i, cap, 0) && u < |t.levels[i]|
    requires Rooted(s', t') && Placed(t') && Typed(s', t')
    requires t'.levels[i] == InsertAfter(t.levels[i], u, x)
    requires forall j :: 0 <= j < |t.levels[i]| && j != u ==>
               SlotsOf(s', t.levels[i][j].child) == SlotsOf(s, t.levels[i][j].child)
    requires KeyCount(SlotsOf(s', t.levels[i][u].child), cap, false, false)
    requires KeyCount(SlotsOf(s', x.child), cap, false, false)
    requires forall p :: p in t'.heightOf && t'.heightOf[p] == i ==>
               p in s' && s'[p].InternalPage? && s'[p].childCategory == (if i == 1 then Leaf else Internal)
    ensures Filled(s', t', i, cap, 0)
  {
    NotTop(s', t', i);
    TopSingle(s, t, i);
    forall j | 0 <= j < |t'.levels[i]|
      ensures t'.levels[i][j].child in t'.heightOf && t'.heightOf[t'.levels[i][j].child] == i
    {
      LevelHeight(t', i, j);
    }
    forall j | 0 <= j < |t.levels[i]|
      ensures t.levels[i][j].child != 0
    {
      LevelHeight(t, i, j);
    }
    FilledCut(s, s', t, t', i, cap, u, x);
  }

  // ------------------------------------------------- a new root

  function PushRoot(t: Tree, q: nat): Tree {
    Tree(t.levels + [[Slot(0, q)]], t.heightOf[q := |t.levels|])
  }

  lemma PlacedPush(t: Tree, q: nat)
    requires Placed(t) && q !in t.heightOf
    ensures Placed(PushRoot(t, q))
  {
    var t' := PushRoot(t, q);
    var n := |t.levels|;
    assert t'.levels[n][0].child == q;
    forall p | p in t'.heightOf
      ensures t'.heightOf[p] < |t'.levels| && Holds(t'.levels[t'.heightOf[p]], p)
    {
      if p != q {
        assert Holds(t.levels[t.heightOf[p]], p);
      }
    }
    forall i, x | 0 <= i < |t'.levels| && 0 <= x < |t'.levels[i]|
      ensures t'.levels[i][x].child in t'.heightOf && t'.heightOf[t'.levels[i][x].child] == i
    {
      if i < n {
        assert t.levels[i][x].child in t.heightOf;
      }
    }
  }

  /** The root p, its new right neighbour r and the new root q above them. */
  ghost predicate RootAdded(s: Store, s': Store, t: Tree, k: nat, q: nat, p: nat, key: int, r: nat) {
    && 0 in s' && s'[0].RootPtrPage? && s'[0].root == q && s'[0].rootCategory == Internal
    && q in s' && s'[q] == InternalPage(0, if k == 0 then Leaf else Internal, [Slot(0, p), Slot(key, r)])
    && p in s && p in s' && s'[p] == WithParent(s[p], q)
    && r in s && r in s' && s'[r] == WithParent(s[r], q)
    && forall x :: x in t.heightOf && x != p ==> x in s && x in s' && s'[x] == s[x]
  }

  lemma RootGrownLevel(s': Store, t': Tree, k: nat, cap: nat, q: nat, p: nat, key: int, r: nat)
    requires |t'.levels| == k + 2 && cap >= 1
    requires t'.levels[k + 1] == [Slot(0, q)] && t'.levels[k] == [Slot(0, p), Slot(key, r)]
    requires q in s' && s'[q] == InternalPage(0, if k == 0 then Leaf else Internal, [Slot(0, p), Slot(key, r)])
    requires ParentOf(s', p) == q && ParentOf(s', r) == q
    ensures LevelOK(s', t', k + 1, cap, 0)
  {
    ExpandSingle(s', Slot(0, q));
  }

  lemma RootGrownRooted(s: Store, s': Store, t: Tree, k: nat, q: nat, p: nat, key: int, r: nat, t': Tree)
    requires RootAdded(s, s', t, k, q, p, key, r)
    requires |t'.levels| == k + 2 && t'.levels[k + 1] == [Slot(0, q)]
    requires Typed(s, t) && q != 0 && r != 0 && p in t.heightOf && t.heightOf[p] == k
    requires q !in t.heightOf && r !in t.heightOf && q != r
    requires if k == 0 then s[r].LeafPage? else s[r].InternalPage?
    requires t'.heightOf == t.heightOf[r := k][q := k + 1]
    ensures Rooted(s', t') && Typed(s', t')
    ensures ParentOf(s', p) == q && ParentOf(s', r) == q
  {
  }

  lemma RootGrown(s: Store, s': Store, t: Tree, k: nat, cap: nat, q: nat, p: nat, key: int, r: nat, t': Tree)
    requires Above(s, t, k, cap, 0) && k == |t.levels| - 1 && p == s[0].root && cap >= 1
    requires q !in t.heightOf && r !in t.heightOf && q != r && q != 0 && r != 0
    requires r in s && (if k == 0 then s[r].LeafPage? else s[r].InternalPage?)
    requires RootAdded(s, s', t, k, q, p, key, r)
    requires q in s' && s'[q] == InternalPage(0, if k == 0 then Leaf else Internal, [Slot(0, p), Slot(key, r)])
    requires t.levels[k] == [Slot(0, p)] && t' == PushRoot(InsertNode(t, k, 0, key, r), q)
    ensures Above(s', t', k, cap, 0)
  {
    hide Placed, Typed, LevelOK, RootAdded;
    RootHeight(s, t);
    PlacedInsert(t, k, 0, key, r);
    PlacedPush(InsertNode(t, k, 0, key, r), q);
    hide Rooted;
    assert t'.levels[k] == [Slot(0, p), Slot(key, r)];
    RootGrownRooted(s, s', t, k, q, p, key, r, t');
    RootGrownLevel(s', t', k, cap, q, p, key, r);
  }

  // ------------------------------------------------- what a step above level k keeps

  ghost predicate SameButParent(page: Page, page': Page) {
    IsTreePage(page) && IsTreePage(page') && page' == WithParent(page, page'.parent)
  }

  /** The state of a tree in a store: its pages, those in use, its shape. */
  datatype State = State(pages: Store, inUse: set<nat>, tree: Tree)

  /** Page p is in use but in no level: a page just allocated or about to be freed. */
  ghost predicate Loose(a: State, p: nat) {
    p in a.inUse && p !in a.tree.heightOf
  }

  /** A step that works on the levels above k: pages below level k and loose pages are
      as they were, those of level k and page x at most got another parent, and only
      x joins or leaves the levels up to k. */
  ghost predicate Progress(a: State, b: State, k: nat, x: nat) {
    && b.tree.heightOf.Keys <= b.inUse
    && (forall p :: p != x ==> (Loose(a, p) <==> Loose(b, p)))
    && SamePages(a, b, k, x)
    && SameHeights(a, b, k, x)
    && |a.tree.levels| >= k && |b.tree.levels| >= k
    && b.tree.levels[..k] == a.tree.levels[..k]
  }

  ghost predicate SamePages(a: State, b: State, k: nat, x: nat) {
    && (forall p :: p in a.inUse && p != x && (p !in a.tree.heightOf || a.tree.heightOf[p] < k) ==>
          p in a.pages && p in b.pages && b.pages[p] == a.pages[p])
    && (forall p :: p in a.tree.heightOf && p != x && a.tree.heightOf[p] == k ==>
          p in a.pages && p in b.pages && SameButParent(a.pages[p], b.pages[p]))
    && (x in a.inUse ==> x in a.pages && x in b.pages && SameButParent(a.pages[x], b.pages[x]))
  }

  ghost predicate SameHeights(a: State, b: State, k: nat, x: nat) {
    && (forall p :: p != x && p in a.tree.heightOf && a.tree.heightOf[p] <= k ==>
          p in b.tree.heightOf && b.tree.heightOf[p] == a.tree.heightOf[p])
    && (forall p :: p != x && p in b.tree.heightOf && b.tree.heightOf[p] <= k ==>
          p in a.tree.heightOf && b.tree.heightOf[p] == a.tree.heightOf[p])
  }

  /** Page q was made the root above the old root; it has no entry yet. */
  ghost predicate NewRoot(a: State, b: State, q: nat) {
    && b.tree == a.tree && b.inUse == a.inUse + {q} && q !in a.inUse && q != 0
    && 0 in a.pages && a.pages[0].RootPtrPage?
    && 0 in b.pages && b.pages[0].RootPtrPage? && b.pages[0].root == q && b.pages[0].rootCategory == Internal
    && q in b.pages && b.pages[q] == InternalPage(0, RootPtr, [])
    && forall p :: p in a.inUse ==>
         && p in a.pages && p in b.pages
         && b.pages[p] == (if p == a.pages[0].root then WithParent(a.pages[p], q) else a.pages[p])
  }

  lemma ProgressWeaken(a: State, b: State, k: nat, x: nat)
    requires Progress(a, b, k + 1, x) && a.tree.heightOf.Keys <= a.inUse
    requires forall p :: p in a.tree.heightOf && a.tree.heightOf[p] == k ==> p in a.pages && IsTreePage(a.pages[p])
    ensures Progress(a, b, k, x)
  {
    assert b.tree.levels[..k] == b.tree.levels[..k + 1][..k];
    assert a.tree.levels[..k] == a.tree.levels[..k + 1][..k];
  }

  lemma ProgressInUse(a: State, b: State, k: nat, x: nat)
    requires Progress(a, b, k, x)
    ensures b.tree.heightOf.Keys <= b.inUse
  {
  }

  lemma ProgressTrans(a: State, b: State, c: State, k: nat, x: nat)
    requires Progress(a, b, k, x) && Progress(b, c, k, x)
    requires x in a.inUse ==> x in b.inUse
    requires a.tree.heightOf.Keys <= a.inUse
    ensures Progress(a, c, k, x)
  {
    forall p | p in a.inUse && p != x && (p !in a.tree.heightOf || a.tree.heightOf[p] < k)
      ensures p in a.pages && p in c.pages && c.pages[p] == a.pages[p]
    {
      if p !in a.tree.heightOf {
        assert Loose(a, p);
        assert Loose(b, p);
      }
    }
  }

  /** A page that was not in use and is now in the tree above level k. */
  lemma ProgressNew(a: State, b: State, k: nat, x: nat)
    requires Progress(a, b, k, x)
    requires 0 !in a.inUse && 0 !in b.inUse && a.tree.heightOf.Keys <= a.inUse
    requires x !in a.inUse && x in b.tree.heightOf && b.tree.heightOf[x] > k
    ensures Progress(a, b, k, 0)
  {
  }

  /** A step that leaves the shape alone and changes pages above level k, and parents of
      level k; it may allocate page x. */
  lemma ProgressPages(a: State, b: State, k: nat, x: nat)
    requires a.tree.heightOf.Keys <= a.inUse && b.tree == a.tree && |a.tree.levels| >= k
    requires a.inUse <= b.inUse && forall p :: p in b.inUse && p != x ==> p in a.inUse
    requires forall p :: p in a.inUse && p != x ==>
               && p in a.pages && p in b.pages
               && (p !in a.tree.heightOf || a.tree.heightOf[p] < k ==> b.pages[p] == a.pages[p])
               && (p in a.tree.heightOf && a.tree.heightOf[p] == k ==> SameButParent(a.pages[p], b.pages[p]))
    requires x !in a.inUse
    ensures Progress(a, b, k, x)
  {
  }

  /** Page r, loose until now, joined level k under a page q of level k + 1. */
  lemma ProgressInsert(a: State, b: State, k: nat, q: nat, c: nat, key: int, r: nat, j: nat)
    requires a.tree.heightOf.Keys <= a.inUse && r in a.inUse && b.inUse == a.inUse
    requires c < |SlotsOf(a.pages, q)| && ChildAdded(a.pages, b.pages, q, c, key, r)
    requires k < |a.tree.levels| && j < |a.tree.levels[k]| && b.tree == InsertNode(a.tree, k, j, key, r)
    requires r !in a.tree.heightOf && q in a.tree.heightOf && a.tree.heightOf[q] == k + 1
    requires forall p :: p in a.inUse ==> p in a.pages
    requires forall p :: p in a.tree.heightOf ==> IsTreePage(a.pages[p])
    requires IsTreePage(a.pages[r])
    ensures Progress(a, b, k, r)
  {
  }

  /** Page q became the root above page p, the root until now, and page r. */
  lemma ProgressRoot(a: State, b: State, k: nat, q: nat, p: nat, key: int, r: nat)
    requires a.tree.heightOf.Keys <= a.inUse && r in a.inUse && b.inUse == a.inUse + {q} && q !in a.inUse
    requires |a.tree.levels| == k + 1 && |a.tree.levels[k]| == 1
    requires b.tree == PushRoot(InsertNode(a.tree, k, 0, key, r), q)
    requires r !in a.tree.heightOf && p in a.tree.heightOf && a.tree.heightOf[p] == k
    requires forall x :: x in a.inUse ==> x in a.pages && x in b.pages
    requires forall x :: x in a.inUse && x != p && x != r ==> b.pages[x] == a.pages[x]
    requires forall x :: x in a.tree.heightOf ==> IsTreePage(a.pages[x])
    requires IsTreePage(a.pages[r])
    requires b.pages[p] == WithParent(a.pages[p], q) && b.pages[r] == WithParent(a.pages[r], q)
    ensures Progress(a, b, k, r)
  {
    assert b.tree.levels[..k] == a.tree.levels[..k];
  }

  // ------------------------------------------------- ties with a pushed-up key

  /** Whether splitting page p, with key the separator of its two halves, ends at a
      failed assertion: a full ancestor is cut in two, its pushed-up key equals the
      separator that must go into it, and the child being split stays in its left
      half while the comparison picks the right half.  fuel bounds the ancestors. */
  predicate WouldTie(s: Store, p: nat, key: int, cap: nat, fuel: nat)
    decreases fuel
  {
    var q := ParentOf(s, p);
    var slots := SlotsOf(s, q);
    if q == 0 || |slots| != cap + 1 || cap == 0 then false
    else
      var pushed := slots[Cut(cap)].key;
      (key == pushed && HasChild(LeftHalf(slots, Cut(cap)), p)) ||
      (fuel > 0 && WouldTie(s, q, pushed, cap, fuel - 1))
  }

  lemma ParentHeight(s: Store, t: Tree, k: nat, cap: nat, ex: nat, j: nat) returns (u: nat, c: nat)
    requires Above(s, t, k, cap, ex) && j < |t.levels[k]| && k + 1 < |t.levels|
    ensures u < |t.levels[k + 1]|
    ensures var q := t.levels[k + 1][u].child;
            && ParentOf(s, t.levels[k][j].child) == q && q != 0
            && q in t.heightOf && t.heightOf[q] == k + 1
            && c < |SlotsOf(s, q)| && SlotsOf(s, q)[c].child == t.levels[k][j].child
            && j == Offset(s, t.levels[k + 1], u) + c
            && 2 <= |SlotsOf(s, q)| <= cap + 1
            && (c > 0 ==> t.levels[k][j] == SlotsOf(s, q)[c])
  {
    var up, down := t.levels[k + 1], t.levels[k];
    assert LevelOK(s, t, k + 1, cap, ex);
    u, c := Locate(s, up, j);
    LevelHeight(t, k + 1, u);
    assert KeyCount(SlotsOf(s, up[u].child), cap, k + 1 == |t.levels| - 1, up[u].child == ex);
  }

  /** The answer only depends on the levels above and on p's parent. */
  lemma {:induction false} WouldTieFrame(s: Store, s': Store, t: Tree, k: nat, cap: nat, j: nat, key: int, fuel: nat)
    requires Above(s, t, k, cap, 0) && AboveSame(s, s', t, k) && j < |t.levels[k]|
    ensures WouldTie(s', t.levels[k][j].child, key, cap, fuel) == WouldTie(s, t.levels[k][j].child, key, cap, fuel)
    decreases fuel
  {
    hide Linked, Filled, SortedLevel, NoDup, Offset, HasChild, Holds;
    var p := t.levels[k][j].child;
    LevelHeight(t, k, j);
    if k + 1 < |t.levels| {
      var u, c := ParentHeight(s, t, k, cap, 0, j);
      var q := t.levels[k + 1][u].child;
      assert s'[q] == s[q];
      if fuel > 0 && |SlotsOf(s, q)| == cap + 1 {
        AboveUp(s, t, k, cap);
        assert AboveSame(s, s', t, k + 1);
        WouldTieFrame(s, s', t, k + 1, cap, u, SlotsOf(s, q)[Cut(cap)].key, fuel - 1);
      }
    } else {
      assert t.levels[k][0].child == p;
    }
  }

  /** What is legal above level k is legal above level k + 1. */
  lemma AboveUp(s: Store, t: Tree, k: nat, cap: nat)
    requires Above(s, t, k, cap, 0) && k + 1 < |t.levels|
    ensures Above(s, t, k + 1, cap, 0)
  {
    var up, down := t.levels[k + 1], t.levels[k];
    assert LevelOK(s, t, k + 1, cap, 0);
    forall j | 0 <= j < |up|
      ensures SlotsOf(s, up[j].child) != []
    {
      assert KeyCount(SlotsOf(s, up[j].child), cap, k + 1 == |t.levels| - 1, up[j].child == 0);
    }
    SortedUp(s, up, down);
  }

  /** The nodes of level k, top excepted, have a parent page; the top has none. */
  lemma ParentlessIsTop(s: Store, t: Tree, k: nat, cap: nat, ex: nat, j: nat)
    requires Above(s, t, k, cap, ex) && j < |t.levels[k]|
    ensures k < |t.levels| && (ParentOf(s, t.levels[k][j].child) == 0 <==> k + 1 == |t.levels|)
    ensures k + 1 == |t.levels| ==> j == 0 && t.levels[k] == [Slot(0, s[0].root)]
  {
    if k + 1 < |t.levels| {
      var u, c := ParentHeight(s, t, k, cap, ex, j);
    }
  }

  // ------------------------------------------------- finding the entry's place

  lemma KidsSorted(s: Store, up: Level, down: Level, u: nat)
    requires Expand(s, up) == down && SortedLevel(down) && u < |up|
    ensures SortedSlots(SlotsOf(s, up[u].child))
  {
    var slots := SlotsOf(s, up[u].child);
    forall d, e | 1 <= d <= e < |slots|
      ensures slots[d].key <= slots[e].key
    {
      ChildAt(s, up, u, d);
      ChildAt(s, up, u, e);
    }
  }

  /** The neighbours of child c of node u, in the level below. */
  lemma KidNeighbours(s: Store, up: Level, down: Level, u: nat, c: nat)
    requires Expand(s, up) == down && u < |up| && c < |SlotsOf(s, up[u].child)|
    ensures var j, slots := Offset(s, up, u) + c, SlotsOf(s, up[u].child);
            && j < |down| && down[j].child == slots[c].child
            && (c > 0 ==> down[j] == slots[c])
            && (c + 1 < |slots| ==> j + 1 < |down| && down[j + 1] == slots[c + 1])
  {
    ChildAt(s, up, u, c);
    if c + 1 < |SlotsOf(s, up[u].child)| {
      ChildAt(s, up, u, c + 1);
    }
  }

  lemma TieOrder(slots: seq<Slot>, c: nat, cut: nat, field: int)
    requires SortedSlots(slots) && DistinctChildren(slots) && c < |slots| && 0 < cut < |slots|
    requires c > 0 ==> slots[c].key <= field
    requires c + 1 < |slots| ==> field <= slots[c + 1].key
    ensures HasChild(LeftHalf(slots, cut), slots[c].child) <==> c < cut
    ensures if c < cut then field <= slots[cut].key else slots[cut].key <= field
  {
    if c < cut {
      assert LeftHalf(slots, cut)[c].child == slots[c].child;
    }
  }

  /** The children of node u are distinct, and its keys sorted. */
  lemma NodeOrdered(s: Store, t: Tree, k: nat, cap: nat, u: nat)
    requires Above(s, t, k, cap, 0) && k + 1 < |t.levels| && u < |t.levels[k + 1]|
    ensures Expand(s, t.levels[k + 1]) == t.levels[k]
    ensures DistinctChildren(SlotsOf(s, t.levels[k + 1][u].child)) && SortedSlots(SlotsOf(s, t.levels[k + 1][u].child))
  {
    var up, down := t.levels[k + 1], t.levels[k];
    assert LevelOK(s, t, k + 1, cap, 0) && NoDup(down);
    hide LevelOK, Above, NoDup, SortedLevel;
    KidsDistinct(s, up, down, u);
    KidsSorted(s, up, down, u);
  }

  /** A key that fits beside child c fits in the half of the page that keeps c, ties aside. */
  lemma TieCase(s: Store, t: Tree, k: nat, cap: nat, u: nat, c: nat, field: int)
    requires Above(s, t, k, cap, 0) && k + 1 < |t.levels| && u < |t.levels[k + 1]| && cap >= 3
    requires var slots := SlotsOf(s, t.levels[k + 1][u].child); |slots| == cap + 1 && c < |slots|
    requires var level, j := t.levels[k], Offset(s, t.levels[k + 1], u) + c;
             && (0 < j < |level| ==> level[j].key <= field)
             && (j + 1 < |level| ==> field <= level[j + 1].key)
    ensures var slots := SlotsOf(s, t.levels[k + 1][u].child);
            && (HasChild(LeftHalf(slots, Cut(cap)), slots[c].child) <==> c < Cut(cap))
            && (if c < Cut(cap) then field <= slots[Cut(cap)].key else slots[Cut(cap)].key <= field)
  {
    hide Above, DistinctChildren, SortedSlots, LeftHalf;
    var up, down := t.levels[k + 1], t.levels[k];
    var slots := SlotsOf(s, up[u].child);
    NodeOrdered(s, t, k, cap, u);
    KidNeighbours(s, up, down, u, c);
    TieOrder(slots, c, Cut(cap), field);
  }

  lemma NodeIndex(t: Tree, k: nat, q: nat) returns (u: nat)
    requires Placed(t) && q in t.heightOf && t.heightOf[q] == k
    ensures k < |t.levels| && u < |t.levels[k]| && t.levels[k][u].child == q
  {
    assert Holds(t.levels[k], q);
    u :| 0 <= u < |t.levels[k]| && t.levels[k][u].child == q;
  }

  /** The children of page q are in the tree and name q as their parent. */
  lemma ChildrenOf(s: Store, t: Tree, k: nat, cap: nat, ex: nat, q: nat)
    requires Above(s, t, k, cap, ex) && q in t.heightOf && t.heightOf[q] == k + 1
    ensures k + 1 < |t.levels|
    ensures forall c :: 0 <= c < |SlotsOf(s, q)| ==>
              && SlotsOf(s, q)[c].child in t.heightOf && t.heightOf[SlotsOf(s, q)[c].child] == k
              && ParentOf(s, SlotsOf(s, q)[c].child) == q
  {
    var u := NodeIndex(t, k + 1, q);
    forall c | 0 <= c < |SlotsOf(s, q)|
      ensures && SlotsOf(s, q)[c].child in t.heightOf && t.heightOf[SlotsOf(s, q)[c].child] == k
              && ParentOf(s, SlotsOf(s, q)[c].child) == q
    {
      ChildHeight(s, t, k, cap, ex, u, c);
    }
  }

  lemma NodeFacts(s: Store, t: Tree, k: nat, cap: nat, q: nat)
    requires Above(s, t, k, cap, 0) && q in t.heightOf && t.heightOf[q] == k + 1
    ensures q in s && s[q].InternalPage? && q != 0
    ensures s[q].childCategory == (if k == 0 then Leaf else Internal)
    ensures 2 <= |SlotsOf(s, q)| <= cap + 1
  {
    var u := NodeIndex(t, k + 1, q);
    assert LevelOK(s, t, k + 1, cap, 0);
    assert t.levels[k + 1][u].child in s;
  }

  /** What insertEntry does with the separator key of node j of level k and its new right
      neighbour r: it succeeds exactly on the page that is the parent of node j. */
  lemma EntryFits(s: Store, t: Tree, k: nat, cap: nat, j: nat, key: int, q: nat, r: nat) returns (u: nat, c: nat)
    requires Above(s, t, k, cap, 0) && j < |t.levels[k]| && q in t.heightOf && t.heightOf[q] == k + 1
    requires r !in t.heightOf
    requires j > 0 ==> t.levels[k][j].key <= key
    requires j + 1 < |t.levels[k]| ==> key <= t.levels[k][j + 1].key
    ensures ParentOf(s, t.levels[k][j].child) != q ==>
              InsertEntry(SlotsOf(s, q), key, t.levels[k][j].child, r) == None
    ensures ParentOf(s, t.levels[k][j].child) == q ==>
              && k + 1 < |t.levels| && u < |t.levels[k + 1]| && t.levels[k + 1][u].child == q
              && c < |SlotsOf(s, q)| && j == Offset(s, t.levels[k + 1], u) + c
              && InsertEntry(SlotsOf(s, q), key, t.levels[k][j].child, r) ==
                 Some(InsertAfter(SlotsOf(s, q), c, Slot(key, r)))
  {
    var p := t.levels[k][j].child;
    var slots := SlotsOf(s, q);
    ChildrenOf(s, t, k, cap, 0, q);
    NodeFacts(s, t, k, cap, q);
    u, c := ParentHeight(s, t, k, cap, 0, j);
    assert LevelOK(s, t, k + 1, cap, 0) && NoDup(t.levels[k]);
    hide Above, LevelOK, Placed;
    if ParentOf(s, p) != q {
      InsertEntryNoMatch(slots, key, p, r);
    } else {
      KidsDistinct(s, t.levels[k + 1], t.levels[k], u);
      KidNeighbours(s, t.levels[k + 1], t.levels[k], u, c);
      InsertEntryAfter(slots, key, c, r);
    }
  }

  /** The new root got its first entry, and its two children their parent. */
  lemma NewRootFilled(a: State, a1: State, s1: Store, s2: Store, q: nat, k: nat, p: nat, key: int, r: nat)
    requires NewRoot(a, a1, q) && p == a.pages[0].root
    requires p in a.inUse && r in a.inUse && p != r && 0 !in a.inUse
    requires s1 == a1.pages[q := InternalPage(0, if k == 0 then Leaf else Internal, [Slot(0, p), Slot(key, r)])]
    requires Reparented(s1, s2, q, [Slot(0, p), Slot(key, r)])
    requires a.tree.heightOf.Keys <= a.inUse && r !in a.tree.heightOf
    ensures RootAdded(a.pages, s2, a.tree, k, q, p, key, r)
    ensures forall x :: x in a.inUse ==> x in a.pages && x in s2
    ensures forall x :: x in a.inUse && x != p && x != r ==> s2[x] == a.pages[x]
  {
    var slots := [Slot(0, p), Slot(key, r)];
    assert slots[0].child == p && slots[1].child == r;
    assert forall x :: HasChild(slots, x) <==> x == p || x == r;
  }

  lemma ProgressRefl(a: State, k: nat)
    requires a.tree.heightOf.Keys <= a.inUse && k <= |a.tree.levels|
    requires forall p :: p in a.inUse ==> p in a.pages
    requires forall p :: p in a.tree.heightOf && a.tree.heightOf[p] == k ==> IsTreePage(a.pages[p])
    requires 0 !in a.inUse
    ensures Progress(a, a, k, 0)
  {
  }

  /** From a step that touched no page x to one that did. */
  lemma ProgressJoin(a: State, b: State, c: State, k: nat, x: nat)
    requires Progress(a, b, k, 0) && Progress(b, c, k, x)
    requires a.tree.heightOf.Keys <= a.inUse && 0 !in a.inUse && 0 !in c.inUse && 0 !in b.inUse
    requires x in a.inUse ==> x !in a.tree.heightOf || a.tree.heightOf[x] <= k
    ensures Progress(a, c, k, x)
  {
    forall p | p in a.inUse && p != x && (p !in a.tree.heightOf || a.tree.heightOf[p] < k)
      ensures p in a.pages && p in c.pages && c.pages[p] == a.pages[p]
    {
      if p !in a.tree.heightOf {
        assert Loose(a, p);
        assert Loose(b, p);
      }
    }
    if x in a.inUse {
      if x !in a.tree.heightOf {
        assert Loose(a, x);
        assert Loose(b, x);
      }
    }
  }

  lemma ProgressLoose(a: State, b: State, k: nat, x: nat, p: nat)
    requires Progress(a, b, k, x) && p in a.inUse && p !in a.tree.heightOf && p != x
    ensures p in b.inUse && p !in b.tree.heightOf && p in a.pages && p in b.pages && b.pages[p] == a.pages[p]
  {
    assert Loose(a, p);
    assert Loose(b, p);
  }

  /** A separator ties on its parent, a full page, exactly if it equals the key the page
      pushes up and goes to its left half, or if that key ties in turn. */
  lemma TiesExactly(s: Store, p: nat, key: int, cap: nat, fuel: nat)
    requires cap > 0
    ensures WouldTie(s, p, key, cap, fuel) <==>
              var q, slots := ParentOf(s, p), SlotsOf(s, ParentOf(s, p));
              && q != 0 && |slots| == cap + 1
              && (|| (key == slots[cap / 2 + 1].key && exists d :: 0 <= d <= cap / 2 && slots[d].child == p)
                  || (fuel > 0 && WouldTie(s, q, slots[cap / 2 + 1].key, cap, fuel - 1)))
  {
    var slots := SlotsOf(s, ParentOf(s, p));
    WouldTieStep(s, p, key, cap, fuel);
    if |slots| == cap + 1 {
      assert forall d :: 0 <= d <= cap / 2 ==> LeftHalf(slots, Cut(cap))[d] == slots[d];
    }
  }

  lemma WouldTieStep(s: Store, p: nat, key: int, cap: nat, fuel: nat)
    ensures WouldTie(s, p, key, cap, fuel) <==>
              var q, slots := ParentOf(s, p), SlotsOf(s, ParentOf(s, p));
              && q != 0 && cap > 0 && |slots| == cap + 1
              && (|| (key == slots[Cut(cap)].key && HasChild(LeftHalf(slots, Cut(cap)), p))
                  || (fuel > 0 && WouldTie(s, q, slots[Cut(cap)].key, cap, fuel - 1)))
  {
  }

  /** Every child of page q, and r, is a page in use, other than q. */
  lemma NewSlotsFit(a: State, k: nat, cap: nat, q: nat, c: nat, key: int, r: nat, slots: seq<Slot>)
    requires Above(a.pages, a.tree, k, cap, 0) && q in a.tree.heightOf && a.tree.heightOf[q] == k + 1
    requires c < |SlotsOf(a.pages, q)| && r !in a.tree.heightOf
    requires a.tree.heightOf.Keys <= a.inUse && r in a.inUse && r in a.pages && IsTreePage(a.pages[r])
    requires slots == InsertAfter(SlotsOf(a.pages, q), c, Slot(key, r))
    ensures forall d :: 0 <= d < |slots| ==>
              && slots[d].child != q && slots[d].child in a.inUse
              && slots[d].child in a.pages && IsTreePage(a.pages[slots[d].child])
  {
    ChildrenOf(a.pages, a.tree, k, cap, 0, q);
    forall d | 0 <= d < |slots|
      ensures && slots[d].child != q && slots[d].child in a.inUse
              && slots[d].child in a.pages && IsTreePage(a.pages[slots[d].child])
    {
      if d != c + 1 {
        assert slots[d] == SlotsOf(a.pages, q)[if d <= c then d else d - 1];
      }
    }
  }

  /** insertEntry into q, the parent of node j of level k, and updateParentPointers(q). */
  lemma EntryPut(a: State, b: State, s1: Store, d: State, k: nat, cap: nat, j: nat, u: nat, c: nat, q: nat, key: int, r: nat)
    requires Above(b.pages, b.tree, k, cap, 0) && j < |b.tree.levels[k]|
    requires k + 1 < |b.tree.levels| && u < |b.tree.levels[k + 1]| && b.tree.levels[k + 1][u].child == q
    requires c < |SlotsOf(b.pages, q)| <= cap && j == Offset(b.pages, b.tree.levels[k + 1], u) + c
    requires r in b.inUse && r !in b.tree.heightOf && r != 0 && r in b.pages
    requires if k == 0 then b.pages[r].LeafPage? else b.pages[r].InternalPage?
    requires j > 0 ==> b.tree.levels[k][j].key <= key
    requires j + 1 < |b.tree.levels[k]| ==> key <= b.tree.levels[k][j + 1].key
    requires q in b.pages && b.pages[q].InternalPage?
    requires s1 == b.pages[q := b.pages[q].(slots := InsertAfter(SlotsOf(b.pages, q), c, Slot(key, r)))]
    requires Reparented(s1, d.pages, q, SlotsOf(s1, q))
    requires d.inUse == b.inUse && d.tree == InsertNode(b.tree, k, j, key, r)
    requires Progress(a, b, k, 0) && a.tree.heightOf.Keys <= a.inUse && 0 !in a.inUse && 0 !in b.inUse
    requires forall p :: p in b.inUse ==> p in b.pages
    requires r in a.inUse ==> r !in a.tree.heightOf
    ensures Above(d.pages, d.tree, k, cap, 0)
    ensures Progress(a, d, k, r)
  {
    hide Above, Progress, ChildAdded, Reparented, Placed, Typed, Rooted, Offset, Linked, Filled, Expand, SortedLevel, NoDup;
    LevelBelow(b.pages, b.tree, k, cap, 0);
    ProgressInUse(a, b, k, 0);
    ReparentedAdds(b.pages, s1, d.pages, b.tree, k, cap, u, c, key, r);
    LevelHeight(b.tree, k + 1, u);
    InsertChild(b.pages, d.pages, b.tree, k, cap, u, c, key, r, d.tree);
    AllTreePages(b.pages, b.tree);
    ProgressInsert(b, d, k, q, c, key, r, j);
    ProgressJoin(a, b, d, k, r);
  }

  lemma AllTreePages(s: Store, t: Tree)
    requires Typed(s, t)
    ensures forall p :: p in t.heightOf ==> p in s && IsTreePage(s[p])
  {
  }

  // ------------------------------------------------- the steps of splitInternalPage

  lemma RightHalfOrdered(slots: seq<Slot>, cut: nat)
    requires 1 <= cut < |slots| && DistinctChildren(slots) && SortedSlots(slots)
    ensures DistinctChildren(RightHalf(slots, cut)) && !HasChild(RightHalf(slots, cut), slots[cut - 1].child)
  {
    var right := RightHalf(slots, cut);
    forall d | 0 <= d < |right|
      ensures right[d].child == slots[cut + d].child
    {
    }
  }

  lemma RightHalfGrows(slots: seq<Slot>, cut: nat)
    requires 1 <= cut < |slots|
    ensures RightHalf(slots, cut - 1) ==
            [Slot(0, slots[cut - 1].child), Slot(slots[cut].key, slots[cut].child)] + slots[cut + 1..]
  {
    assert slots[cut..] == [slots[cut]] + slots[cut + 1..];
  }

  /** Moving the last entry of the left part to the front of the right part. */
  lemma MoveEntryRight(slots: seq<Slot>, cut: nat)
    requires 1 <= cut < |slots| && DistinctChildren(slots) && SortedSlots(slots)
    ensures InsertEntry(if cut == |slots| - 1 then [] else RightHalf(slots, cut),
                        slots[cut].key, slots[cut - 1].child, slots[cut].child) ==
            Some(RightHalf(slots, cut - 1))
  {
    RightHalfGrows(slots, cut);
    if cut < |slots| - 1 {
      var right := RightHalf(slots, cut);
      RightHalfOrdered(slots, cut);
      assert right[1] == slots[cut + 1] && right[1..] == slots[cut + 1..];
      InsertEntryBefore(right, slots[cut].key, slots[cut - 1].child);
    } else {
      var pair := [Slot(0, slots[cut - 1].child), Slot(slots[cut].key, slots[cut].child)];
      assert pair + slots[cut + 1..] == pair;
    }
  }

  lemma OffsetNext(s: Store, up: Level, j: nat)
    requires j < |up|
    ensures Offset(s, up, j + 1) == Offset(s, up, j) + |SlotsOf(s, up[j].child)|
  {
    assert up[..j + 1] == up[..j] + [up[j]];
    ExpandAppend(s, up[..j], [up[j]]);
    ExpandSingle(s, up[j]);
  }

  /** The keys inside a node lie between the separators on its two sides. */
  lemma InnerKeyFits(s: Store, up: Level, down: Level, u: nat, c: nat)
    requires Expand(s, up) == down && SortedLevel(down) && u < |up|
    requires forall j :: 0 <= j < |up| ==> SlotsOf(s, up[j].child) != []
    requires 0 < c < |SlotsOf(s, up[u].child)|
    ensures u > 0 ==> up[u].key <= SlotsOf(s, up[u].child)[c].key
    ensures u + 1 < |up| ==> SlotsOf(s, up[u].child)[c].key <= up[u + 1].key
  {
    ChildAt(s, up, u, c);
    if u > 0 {
      ChildAt(s, up, u, 0);
      OffsetMonotone(s, up, 0, u);
    }
    if u + 1 < |up| {
      OffsetNext(s, up, u);
      ChildAt(s, up, u + 1, 0);
    }
  }

  lemma SlotsNonEmpty(s: Store, t: Tree, i: nat, cap: nat, ex: nat)
    requires i < |t.levels| && Filled(s, t, i, cap, ex)
    ensures forall j :: 0 <= j < |t.levels[i]| ==> SlotsOf(s, t.levels[i][j].child) != []
  {
    forall j | 0 <= j < |t.levels[i]|
      ensures SlotsOf(s, t.levels[i][j].child) != []
    {
      assert KeyCount(SlotsOf(s, t.levels[i][j].child), cap, i == |t.levels| - 1, t.levels[i][j].child == ex);
    }
  }

  /** The pages once node u of level k + 1, page q, is cut and the right half is in r. */
  ghost predicate Halved(a: State, b: State, cap: nat, q: nat, r: nat)
    requires |SlotsOf(a.pages, q)| == cap + 1 && cap >= 3
  {
    var slots := SlotsOf(a.pages, q);
    && b.tree == a.tree && b.inUse == a.inUse + {r} && r !in a.inUse && r != 0
    && 0 in a.pages && a.pages[0].RootPtrPage? && 0 in b.pages && b.pages[0] == a.pages[0]
    && q in a.pages && a.pages[q].InternalPage? && q in a.inUse
    && q in b.pages && b.pages[q] == a.pages[q].(slots := LeftHalf(slots, Cut(cap)))
    && r in b.pages && b.pages[r] == InternalPage(0, a.pages[q].childCategory, RightHalf(slots, Cut(cap)))
    && forall p :: p in a.inUse && p != q ==>
         && p in a.pages && p in b.pages
         && b.pages[p] == if HasChild(RightHalf(slots, Cut(cap)), p) then WithParent(a.pages[p], r) else a.pages[p]
  }

  /** s1 is the store once the slots of page q are shared between q and the new page r. */
  ghost predicate SlotsShared(a: State, s1: Store, cap: nat, q: nat, r: nat)
    requires |SlotsOf(a.pages, q)| == cap + 1 && cap >= 3
  {
    var slots := SlotsOf(a.pages, q);
    && r !in a.inUse && r != 0 && q in a.inUse
    && 0 in a.pages && a.pages[0].RootPtrPage? && 0 in s1 && s1[0] == a.pages[0]
    && (forall p :: p in a.inUse ==> p in a.pages && p in s1)
    && (forall p :: p in a.inUse && p != q ==> s1[p] == a.pages[p])
    && a.pages[q].InternalPage? && r in s1
    && s1[q] == a.pages[q].(slots := LeftHalf(slots, Cut(cap)))
    && s1[r] == InternalPage(0, a.pages[q].childCategory, RightHalf(slots, Cut(cap)))
  }

  lemma HalvedIs(a: State, b: State, cap: nat, q: nat, r: nat)
    requires |SlotsOf(a.pages, q)| == cap + 1 && cap >= 3 && Halved(a, b, cap, q, r)
    ensures var slots := SlotsOf(a.pages, q);
            && Pushed(a.pages, q, cap) == slots[cap / 2 + 1].key && r !in a.inUse
            && SlotsOf(b.pages, q) == slots[..cap / 2 + 1]
            && SlotsOf(b.pages, r) == [Slot(0, slots[cap / 2 + 1].child)] + slots[cap / 2 + 2..]
  {
  }

  lemma HalvedBuilt(a: State, s1: Store, b: State, cap: nat, q: nat, r: nat)
    requires |SlotsOf(a.pages, q)| == cap + 1 && cap >= 3
    requires b.tree == a.tree && b.inUse == a.inUse + {r} && 0 !in a.inUse
    requires SlotsShared(a, s1, cap, q, r)
    requires Reparented(s1, b.pages, r, SlotsOf(s1, r))
    requires forall d :: 0 <= d < |SlotsOf(a.pages, q)| ==>
               SlotsOf(a.pages, q)[d].child != q && SlotsOf(a.pages, q)[d].child in a.inUse
    ensures Halved(a, b, cap, q, r)
  {
    var right := RightHalf(SlotsOf(a.pages, q), Cut(cap));
    RightHalfSlots(SlotsOf(a.pages, q), Cut(cap));
    assert forall p :: HasChild(right, p) ==> p != q && p != r && p != 0;
  }

  /** The children that moved are those of level k under the right half. */
  lemma HalvedChildren(a: State, b: State, k: nat, cap: nat, u: nat, q: nat, r: nat)
    requires Full(a, k, cap, u, q)
    requires Halved(a, b, cap, q, r)
    ensures q in a.tree.heightOf && a.tree.heightOf[q] == k + 1
    ensures forall p :: HasChild(RightHalf(SlotsOf(a.pages, q), Cut(cap)), p) ==>
              p in a.tree.heightOf && a.tree.heightOf[p] == k && p in a.pages && IsTreePage(a.pages[p])
  {
    hide Above, Halved, Placed, Typed, Rooted, Linked, Filled, Expand, SortedLevel, NoDup;
    var slots := SlotsOf(a.pages, q);
    var right := RightHalf(slots, Cut(cap));
    LevelBelow(a.pages, a.tree, k, cap, 0);
    LevelHeight(a.tree, k + 1, u);
    ChildrenOf(a.pages, a.tree, k, cap, 0, q);
    AllTreePages(a.pages, a.tree);
    forall p | HasChild(right, p)
      ensures p in a.tree.heightOf && a.tree.heightOf[p] == k && p in a.pages && IsTreePage(a.pages[p])
    {
      var d :| 0 <= d < |right| && right[d].child == p;
      assert slots[Cut(cap) + d].child == p;
    }
  }

  lemma HalvedAbove(a: State, b: State, k: nat, cap: nat, u: nat, q: nat, r: nat)
    requires Full(a, k, cap, u, q)
    requires Halved(a, b, cap, q, r)
    ensures Above(b.pages, b.tree, k + 1, cap, 0) && AboveSame(a.pages, b.pages, a.tree, k + 1)
    ensures Progress(a, b, k, r)
  {
    HalvedChildren(a, b, k, cap, u, q, r);
    AboveUp(a.pages, a.tree, k, cap);
    AllTreePages(a.pages, a.tree);
    assert Typed(a.pages, a.tree);
    hide Above, Progress, Typed;
    assert AboveSame(a.pages, b.pages, a.tree, k + 1);
    AboveFrame(a.pages, b.pages, a.tree, k + 1, cap, 0);
    ProgressPages(a, b, k, r);
  }

  lemma HalvedCut(a: State, b: State, k: nat, cap: nat, u: nat, q: nat, r: nat)
    requires Full(a, k, cap, u, q)
    requires Halved(a, b, cap, q, r)
    ensures CutInTwo(a.pages, b.pages, a.tree.levels[k + 1], a.tree.levels[k], u, Cut(cap), r)
  {
    hide LevelOK, SortedLevel, Holds, HasChild;
    var up, down := a.tree.levels[k + 1], a.tree.levels[k];
    HalvedChildren(a, b, k, cap, u, q, r);
    AllTreePages(a.pages, a.tree);
    assert NoDup(up);
    forall j | 0 <= j < |up| && j != u
      ensures SlotsOf(b.pages, up[j].child) == SlotsOf(a.pages, up[j].child)
    {
      LevelHeight(a.tree, k + 1, j);
    }
    forall x | 0 <= x < |down|
      ensures down[x].child in a.tree.heightOf && a.tree.heightOf[down[x].child] == k
    {
      LevelHeight(a.tree, k, x);
    }
  }

  /** The step above level k + 1 kept the cut. */
  lemma CutKept(s: Store, a: State, b: State, t: Tree, k: nat, u: nat, cut: nat, r: nat)
    requires k + 1 < |t.levels| && CutInTwo(s, a.pages, t.levels[k + 1], t.levels[k], u, cut, r)
    requires Placed(t) && a.tree == t && r !in t.heightOf && r in a.inUse
    requires t.heightOf.Keys <= a.inUse
    requires Progress(a, b, k + 1, r)
    ensures CutInTwo(s, b.pages, t.levels[k + 1], t.levels[k], u, cut, r)
  {
    var up, down := t.levels[k + 1], t.levels[k];
    forall j | 0 <= j < |up|
      ensures SlotsOf(b.pages, up[j].child) == SlotsOf(a.pages, up[j].child)
    {
      LevelHeight(t, k + 1, j);
    }
    forall x | 0 <= x < |down|
      ensures ParentOf(b.pages, down[x].child) == ParentOf(a.pages, down[x].child)
    {
      LevelHeight(t, k, x);
    }
  }

  lemma CutCategories(a: State, a1: State, b: State, k: nat, cap: nat, u: nat, q: nat, r: nat)
    requires Full(a, k, cap, u, q)
    requires Halved(a, a1, cap, q, r) && Progress(a1, b, k + 1, r)
    ensures forall p :: p in b.tree.heightOf && b.tree.heightOf[p] == k + 1 ==>
              p in b.pages && b.pages[p].InternalPage? && b.pages[p].childCategory == (if k == 0 then Leaf else Internal)
  {
    hide Above, Placed, Typed, HasChild, Cut;
    HalvedChildren(a, a1, k, cap, u, q, r);
    NodeFacts(a.pages, a.tree, k, cap, q);
    forall p | p in b.tree.heightOf && b.tree.heightOf[p] == k + 1
      ensures p in b.pages && b.pages[p].InternalPage? && b.pages[p].childCategory == (if k == 0 then Leaf else Internal)
    {
      if p != r {
        NodeFacts(a.pages, a.tree, k, cap, p);
        assert a1.pages[p].childCategory == a.pages[p].childCategory;
      }
    }
  }

  /** Page q, node u of level k + 1 of a legal tree, has no empty slot. */
  ghost predicate Full(a: State, k: nat, cap: nat, u: nat, q: nat) {
    && Above(a.pages, a.tree, k, cap, 0) && cap >= 3
    && a.tree.heightOf.Keys <= a.inUse && 0 !in a.inUse
    && k + 1 < |a.tree.levels| && u < |a.tree.levels[k + 1]| && a.tree.levels[k + 1][u].child == q
    && |SlotsOf(a.pages, q)| == cap + 1
  }

  /** The key a full node pushes up fits between the separators on its two sides. */
  lemma PushedFits(a: State, k: nat, cap: nat, u: nat, q: nat)
    requires Full(a, k, cap, u, q)
    ensures u > 0 ==> a.tree.levels[k + 1][u].key <= Pushed(a.pages, q, cap)
    ensures u + 1 < |a.tree.levels[k + 1]| ==> Pushed(a.pages, q, cap) <= a.tree.levels[k + 1][u + 1].key
  {
    NodeOrdered(a.pages, a.tree, k, cap, u);
    assert LevelOK(a.pages, a.tree, k + 1, cap, 0);
    SlotsNonEmpty(a.pages, a.tree, k + 1, cap, 0);
    assert SortedLevel(a.tree.levels[k]);
    hide Above, DistinctChildren, SortedSlots, SortedLevel, LevelOK;
    InnerKeyFits(a.pages, a.tree.levels[k + 1], a.tree.levels[k], u, Cut(cap));
  }

  /** What cutting a full node needs to know about it. */
  lemma FullNode(a: State, k: nat, cap: nat, u: nat, q: nat)
    requires Full(a, k, cap, u, q)
    ensures k + 1 < |a.tree.levels| && u < |a.tree.levels[k + 1]| && |SlotsOf(a.pages, q)| == cap + 1 && cap >= 3
    ensures 0 !in a.inUse
    ensures q in a.inUse && q in a.pages && a.pages[q].InternalPage? && q in a.tree.heightOf && q != 0
    ensures a.pages[q].childCategory == (if k == 0 then Leaf else Internal)
    ensures DistinctChildren(SlotsOf(a.pages, q)) && SortedSlots(SlotsOf(a.pages, q))
    ensures forall d :: 0 <= d < |SlotsOf(a.pages, q)| ==>
              var child := SlotsOf(a.pages, q)[d].child;
              child != q && child in a.inUse && child in a.pages && IsTreePage(a.pages[child])
  {
    LevelHeight(a.tree, k + 1, u);
    NodeFacts(a.pages, a.tree, k, cap, q);
    ChildrenOf(a.pages, a.tree, k, cap, 0, q);
    AllTreePages(a.pages, a.tree);
    NodeOrdered(a.pages, a.tree, k, cap, u);
    hide Above, DistinctChildren, SortedSlots;
  }

  lemma SplitPrepared(a: State, b: State, k: nat, cap: nat, u: nat, q: nat, r: nat, key: int, fuel: nat)
    requires Full(a, k, cap, u, q)
    requires Halved(a, b, cap, q, r)
    requires key == Pushed(a.pages, q, cap)
    ensures Adding(b, k + 1, cap, u, key, q, r)
    ensures WouldTie(b.pages, q, key, cap, fuel) == WouldTie(a.pages, q, key, cap, fuel)
  {
    HalvedAbove(a, b, k, cap, u, q, r);
    AboveUp(a.pages, a.tree, k, cap);
    PushedFits(a, k, cap, u, q);
    hide Above, AboveSame, WouldTie, Progress, DistinctChildren, SortedSlots;
    WouldTieFrame(a.pages, b.pages, a.tree, k + 1, cap, u, key, fuel);
  }

  /** A separator key fits on the right of page p, node j of level k, of a legal tree. */
  ghost predicate Fitting(a: State, k: nat, cap: nat, j: nat, key: int, p: nat) {
    && Above(a.pages, a.tree, k, cap, 0) && cap >= 3
    && a.tree.heightOf.Keys <= a.inUse && 0 !in a.inUse
    && j < |a.tree.levels[k]| && a.tree.levels[k][j].child == p
    && (j > 0 ==> a.tree.levels[k][j].key <= key)
    && (j + 1 < |a.tree.levels[k]| ==> key <= a.tree.levels[k][j + 1].key)
  }

  /** Page r and its separator key are to join the tree as the right neighbour of page p. */
  ghost predicate Adding(a: State, k: nat, cap: nat, j: nat, key: int, p: nat, r: nat) {
    && Fitting(a, k, cap, j, key, p)
    && r in a.inUse && r !in a.tree.heightOf && r in a.pages
    && (if k == 0 then a.pages[r].LeafPage? else a.pages[r].InternalPage?)
  }

  lemma RightHalfSlots(slots: seq<Slot>, cut: nat)
    requires cut < |slots|
    ensures forall d :: 0 <= d < |RightHalf(slots, cut)| ==> RightHalf(slots, cut)[d].child == slots[cut + d].child
  {
  }

  /** Page r is the right neighbour of node j of level k, in a legal tree. */
  ghost predicate Added(a: State, b: State, k: nat, cap: nat, j: nat, key: int, r: nat)
    requires k < |a.tree.levels| && j < |a.tree.levels[k]|
  {
    && Above(b.pages, b.tree, k, cap, 0) && Progress(a, b, k, r)
    && b.tree.levels[k] == InsertAfter(a.tree.levels[k], j, Slot(key, r))
    && r in b.tree.heightOf
  }

  /** What splitInternalPage on page q leaves: a legal tree with level k as it was, and
      a page with room, the half that field belongs to. */
  ghost predicate SplitResult(a: State, b: State, k: nat, cap: nat, q: nat, field: int, chosen: nat)
    requires |SlotsOf(a.pages, q)| == cap + 1 && cap > 0 && k < |a.tree.levels|
  {
    && Above(b.pages, b.tree, k, cap, 0) && Progress(a, b, k, 0)
    && b.tree.levels[k] == a.tree.levels[k]
    && chosen in b.tree.heightOf && b.tree.heightOf[chosen] == k + 1 && |SlotsOf(b.pages, chosen)| <= cap
    && forall d :: 0 <= d < |SlotsOf(a.pages, q)| ==>
         (ParentOf(b.pages, SlotsOf(a.pages, q)[d].child) == chosen <==>
          (d < Cut(cap) <==> field < Pushed(a.pages, q, cap)))
  }

  /** What getParentWithEmptySlots leaves when it returns an old page: the page has room,
      and is the parent of node j unless a full page q was cut between the two. */
  ghost predicate ParentReady(a: State, b: State, k: nat, cap: nat, j: nat, field: int, q: nat, parent: nat)
    requires k < |a.tree.levels| && j < |a.tree.levels[k]| && cap > 0
  {
    && Above(b.pages, b.tree, k, cap, 0) && Progress(a, b, k, 0)
    && b.tree.levels[k] == a.tree.levels[k]
    && parent in b.tree.heightOf && b.tree.heightOf[parent] == k + 1 && |SlotsOf(b.pages, parent)| <= cap
    && (ParentOf(b.pages, a.tree.levels[k][j].child) == parent <==>
        !(|SlotsOf(a.pages, q)| == cap + 1 && field == Pushed(a.pages, q, cap) &&
          HasChild(LeftHalf(SlotsOf(a.pages, q), Cut(cap)), a.tree.levels[k][j].child)))
  }

  lemma FittingRoot(a: State, k: nat, cap: nat, j: nat, key: int, p: nat)
    requires Fitting(a, k, cap, j, key, p)
    ensures 0 in a.pages && a.pages[0].RootPtrPage? && a.pages[0].root in a.inUse
  {
    RootHeight(a.pages, a.tree);
  }

  /** Where the parent of a page that is not the root has it. */
  lemma FittingParent(a: State, k: nat, cap: nat, j: nat, field: int, p: nat) returns (u: nat, c: nat)
    requires Fitting(a, k, cap, j, field, p) && ParentOf(a.pages, p) != 0
    requires forall x :: x in a.inUse ==> x in a.pages
    ensures PlaceOf(a, k, cap, j, p, u, c)
    ensures var q := ParentOf(a.pages, p);
            && q in a.pages && a.pages[q].InternalPage? && |a.pages[q].slots| <= cap + 1
            && (|a.pages[q].slots| == cap + 1 ==> Full(a, k, cap, u, q))
  {
    ParentlessIsTop(a.pages, a.tree, k, cap, 0, j);
    u, c := ParentHeight(a.pages, a.tree, k, cap, 0, j);
    AllTreePages(a.pages, a.tree);
    assert Typed(a.pages, a.tree);
  }

  /** Page p, node j of level k, is child c of node u of the level above. */
  ghost predicate PlaceOf(a: State, k: nat, cap: nat, j: nat, p: nat, u: nat, c: nat) {
    && k + 1 < |a.tree.levels| && u < |a.tree.levels[k + 1]|
    && a.tree.levels[k + 1][u].child == ParentOf(a.pages, p)
    && ParentOf(a.pages, p) in a.tree.heightOf && a.tree.heightOf[ParentOf(a.pages, p)] == k + 1
    && c < |SlotsOf(a.pages, ParentOf(a.pages, p))| && SlotsOf(a.pages, ParentOf(a.pages, p))[c].child == p
    && j == Offset(a.pages, a.tree.levels[k + 1], u) + c
  }

  lemma ParentReadyNow(a: State, k: nat, cap: nat, j: nat, field: int, p: nat, u: nat, c: nat)
    requires Fitting(a, k, cap, j, field, p) && PlaceOf(a, k, cap, j, p, u, c)
    requires |SlotsOf(a.pages, ParentOf(a.pages, p))| <= cap
    requires forall p :: p in a.inUse ==> p in a.pages
    ensures k < |a.tree.levels| && j < |a.tree.levels[k]| && cap > 0
    ensures ParentReady(a, a, k, cap, j, field, ParentOf(a.pages, p), ParentOf(a.pages, p))
  {
    AllTreePages(a.pages, a.tree);
    ProgressRefl(a, k);
  }

  lemma ParentReadySplit(a: State, b: State, k: nat, cap: nat, j: nat, field: int, p: nat, u: nat, c: nat, q: nat, chosen: nat)
    requires Fitting(a, k, cap, j, field, p) && PlaceOf(a, k, cap, j, p, u, c) && q == ParentOf(a.pages, p)
    requires |SlotsOf(a.pages, q)| == cap + 1 && k < |a.tree.levels|
    requires SplitResult(a, b, k, cap, q, field, chosen)
    ensures k < |a.tree.levels| && j < |a.tree.levels[k]| && cap > 0
    ensures ParentReady(a, b, k, cap, j, field, q, chosen)
  {
    TieCase(a.pages, a.tree, k, cap, u, c, field);
    hide Above, Progress;
  }

  /** splitInternalPage is done: level k is as it was, below a legal tree. */
  lemma SplitFinish(a: State, a1: State, b: State, k: nat, cap: nat, u: nat, q: nat, r: nat, field: int)
    requires Full(a, k, cap, u, q)
    requires 0 !in b.inUse
    requires Halved(a, a1, cap, q, r)
    requires a1.tree == a.tree && Added(a1, b, k + 1, cap, u, Pushed(a.pages, q, cap), r)
    ensures SplitResult(a, b, k, cap, q, field, if field < Pushed(a.pages, q, cap) then q else r)
    ensures var slots, c := SlotsOf(a.pages, q), cap / 2 + 1;
            && SlotsOf(b.pages, q) == slots[..c]
            && SlotsOf(b.pages, r) == [Slot(0, slots[c].child)] + slots[c + 1..]
            && k + 1 < |b.tree.levels| && |b.tree.levels[k + 1]| == |a.tree.levels[k + 1]| + 1
            && b.tree.levels[k + 1][u + 1].child == r
            && b.tree.levels[k + 1] == InsertAfter(a.tree.levels[k + 1], u, Slot(slots[c].key, r))
            && Pushed(a.pages, q, cap) == slots[c].key && r !in a.inUse
    ensures var up := a.tree.levels[k + 1];
            forall x :: 0 <= x < |up| && x != u ==> SlotsOf(b.pages, up[x].child) == SlotsOf(a.pages, up[x].child)
  {
    hide Above, Progress, Halved, CutInTwo, Full, Pushed;
    SplitFacts(a, a1, b, k, cap, u, q, r);
    SplitLegal(a, a1, b, k, cap, u, q, r);
    HalvesAre(a.pages, b.pages, a.tree.levels[k + 1], a.tree.levels[k], u, cap, r);
    SplitProgress(a, a1, b, k, r);
    SplitChosen(a, b, k, cap, u, q, r);
  }

  /** The two halves, in numbers. */
  lemma HalvesAre(s: Store, s': Store, up: Level, down: Level, u: nat, cap: nat, r: nat)
    requires CutInTwo(s, s', up, down, u, Cut(cap), r) && |SlotsOf(s, up[u].child)| == cap + 1 && cap >= 3
    ensures var slots := SlotsOf(s, up[u].child);
            && SlotsOf(s', up[u].child) == slots[..cap / 2 + 1]
            && SlotsOf(s', r) == [Slot(0, slots[cap / 2 + 1].child)] + slots[cap / 2 + 2..]
    ensures forall x :: 0 <= x < |up| && x != u ==> SlotsOf(s', up[x].child) == SlotsOf(s, up[x].child)
  {
  }

  lemma SplitFacts(a: State, a1: State, b: State, k: nat, cap: nat, u: nat, q: nat, r: nat)
    requires Full(a, k, cap, u, q) && Halved(a, a1, cap, q, r) && a1.tree == a.tree
    requires Added(a1, b, k + 1, cap, u, Pushed(a.pages, q, cap), r)
    ensures q in b.tree.heightOf && b.tree.heightOf[q] == k + 1 && r in b.tree.heightOf && b.tree.heightOf[r] == k + 1
    ensures q in a.inUse && r !in a.inUse && Progress(a, a1, k, r)
    ensures a.tree.heightOf.Keys <= a.inUse && 0 !in a.inUse
    ensures forall p :: p in a.tree.heightOf ==> p in a.pages && IsTreePage(a.pages[p])
    ensures k + 1 < |a.tree.levels| && u < |a.tree.levels[k + 1]| && a.tree.levels[k + 1][u].child == q && k + 1 < |b.tree.levels|
    ensures |SlotsOf(a.pages, q)| == cap + 1 && cap >= 3 && Pushed(a.pages, q, cap) == SlotsOf(a.pages, q)[Cut(cap)].key
    ensures b.tree.levels[k + 1] == InsertAfter(a.tree.levels[k + 1], u, Slot(SlotsOf(a.pages, q)[Cut(cap)].key, r))
  {
    hide Progress, Rooted, Typed, LevelOK, SortedLevel;
    LevelHeight(b.tree, k + 1, u);
    LevelHeight(b.tree, k + 1, u + 1);
    HalvedAbove(a, a1, k, cap, u, q, r);
    FullPages(a, k, cap, u, q);
  }

  lemma FullPages(a: State, k: nat, cap: nat, u: nat, q: nat)
    requires Full(a, k, cap, u, q)
    ensures forall p :: p in a.tree.heightOf ==> p in a.pages && IsTreePage(a.pages[p])
  {
    AllTreePages(a.pages, a.tree);
  }

  lemma SplitLegal(a: State, a1: State, b: State, k: nat, cap: nat, u: nat, q: nat, r: nat)
    requires Full(a, k, cap, u, q)
    requires 0 !in b.inUse
    requires Halved(a, a1, cap, q, r) && Progress(a1, b, k + 1, r)
    requires Above(b.pages, b.tree, k + 1, cap, 0) && r in b.tree.heightOf
    requires b.tree.levels[k + 1] ==
             InsertAfter(a.tree.levels[k + 1], u, Slot(SlotsOf(a.pages, q)[Cut(cap)].key, r))
    ensures Above(b.pages, b.tree, k, cap, 0)
    ensures b.tree.levels[k] == a.tree.levels[k]
    ensures CutInTwo(a.pages, b.pages, a.tree.levels[k + 1], a.tree.levels[k], u, Cut(cap), r)
  {
    assert Typed(a.pages, a.tree);
    HalvedCut(a, a1, k, cap, u, q, r);
    CutKept(a.pages, a1, b, a.tree, k, u, Cut(cap), r);
    CutCategories(a, a1, b, k, cap, u, q, r);
    assert b.tree.levels[k] == b.tree.levels[..k + 1][k];
    assert a.tree.levels[k] == a.tree.levels[..k + 1][k];
    assert NoDup(a.tree.levels[k]);
    hide Progress, Halved, CutInTwo;
    SplitDone(a.pages, b.pages, a.tree, b.tree, k, cap, u, r);
  }

  lemma SplitProgress(a: State, a1: State, b: State, k: nat, r: nat)
    requires Progress(a, a1, k, r) && Progress(a1, b, k + 1, r)
    requires r !in a.inUse && r in b.tree.heightOf && b.tree.heightOf[r] == k + 1
    requires a.tree.heightOf.Keys <= a.inUse && 0 !in a.inUse && 0 !in b.inUse
    requires forall p :: p in a.tree.heightOf ==> p in a.pages && IsTreePage(a.pages[p])
    requires a1.tree == a.tree
    ensures Progress(a, b, k, 0)
  {
    ProgressWeaken(a1, b, k, r);
    ProgressTrans(a, a1, b, k, r);
    ProgressNew(a, b, k, r);
  }

  /** Which half names each moved or kept child as its own. */
  lemma SplitChosen(a: State, b: State, k: nat, cap: nat, u: nat, q: nat, r: nat)
    requires Full(a, k, cap, u, q)
    requires CutInTwo(a.pages, b.pages, a.tree.levels[k + 1], a.tree.levels[k], u, Cut(cap), r)
    ensures |SlotsOf(b.pages, q)| <= cap && |SlotsOf(b.pages, r)| <= cap
    ensures forall d :: 0 <= d < |SlotsOf(a.pages, q)| ==>
              ParentOf(b.pages, SlotsOf(a.pages, q)[d].child) == if d < Cut(cap) then q else r
  {
    assert LevelOK(a.pages, a.tree, k + 1, cap, 0) && NoDup(a.tree.levels[k]);
    HalvesCount(SlotsOf(a.pages, q), cap);
    CutParents(a.pages, b.pages, a.tree.levels[k + 1], a.tree.levels[k], u, Cut(cap), r);
  }

  // ------------------------------------------------- the steps of adding to a parent

  /** Page r and its separator key are about to go into page q of level k + 1, as the
      right neighbour of node j of level k. */
  ghost predicate Entering(b: State, k: nat, cap: nat, j: nat, key: int, q: nat, r: nat) {
    && Above(b.pages, b.tree, k, cap, 0) && j < |b.tree.levels[k]|
    && q in b.tree.heightOf && b.tree.heightOf[q] == k + 1 && |SlotsOf(b.pages, q)| <= cap
    && b.tree.heightOf.Keys <= b.inUse && 0 !in b.inUse
    && (forall p :: p in b.inUse ==> p in b.pages)
    && r in b.inUse && r !in b.tree.heightOf
    && (if k == 0 then b.pages[r].LeafPage? else b.pages[r].InternalPage?)
    && (j > 0 ==> b.tree.levels[k][j].key <= key)
    && (j + 1 < |b.tree.levels[k]| ==> key <= b.tree.levels[k][j + 1].key)
  }

  lemma EnteringSlots(b: State, k: nat, cap: nat, j: nat, key: int, q: nat, p: nat, r: nat) returns (slots: Option<seq<Slot>>)
    requires Entering(b, k, cap, j, key, q, r) && p == b.tree.levels[k][j].child
    ensures q in b.pages && b.pages[q].InternalPage? && q in b.inUse && |b.pages[q].slots| <= cap
    ensures b.pages[q].childCategory == (if k == 0 then Leaf else Internal)
    ensures slots == InsertEntry(b.pages[q].slots, key, p, r)
    ensures slots.Some? <==> ParentOf(b.pages, p) == q
    ensures slots.Some? ==> 2 <= |slots.value| && forall d :: 0 <= d < |slots.value| ==>
              && slots.value[d].child != q && slots.value[d].child in b.inUse
              && slots.value[d].child in b.pages && IsTreePage(b.pages[slots.value[d].child])
  {
    NodeFacts(b.pages, b.tree, k, cap, q);
    slots := InsertEntry(b.pages[q].slots, key, p, r);
    var u, c := EntryFits(b.pages, b.tree, k, cap, j, key, q, r);
    if ParentOf(b.pages, p) == q {
      NewSlotsFit(b, k, cap, q, c, key, r, slots.value);
    }
  }

  /** insertEntry into q, the parent of node j of level k, and updateParentPointers(q). */
  lemma EnteringDone(a: State, b: State, s1: Store, d: State, k: nat, cap: nat, j: nat, q0: nat, q: nat, p: nat, key: int, r: nat)
    requires Adding(a, k, cap, j, key, p, r) && ParentReady(a, b, k, cap, j, key, q0, q)
    requires Entering(b, k, cap, j, key, q, r) && ParentOf(b.pages, p) == q
    requires q in b.pages && b.pages[q].InternalPage? && InsertEntry(b.pages[q].slots, key, p, r).Some?
    requires s1 == b.pages[q := b.pages[q].(slots := InsertEntry(b.pages[q].slots, key, p, r).value)]
    requires Reparented(s1, d.pages, q, SlotsOf(s1, q))
    requires d.inUse == b.inUse && d.tree == InsertNode(b.tree, k, j, key, r)
    ensures Added(a, d, k, cap, j, key, r)
  {
    var u, c := EntryFits(b.pages, b.tree, k, cap, j, key, q, r);
    hide Above, Reparented, Progress;
    EntryPut(a, b, s1, d, k, cap, j, u, c, q, key, r);
  }

  /** After getParentWithEmptySlots returned an old page. */
  lemma EnteringReady(a: State, b: State, k: nat, cap: nat, j: nat, key: int, p: nat, q0: nat, q: nat, r: nat)
    requires Adding(a, k, cap, j, key, p, r) && ParentReady(a, b, k, cap, j, key, q0, q)
    requires 0 !in b.inUse && forall x :: x in b.inUse ==> x in b.pages
    ensures Entering(b, k, cap, j, key, q, r) && cap >= 3 && k < |b.tree.levels| && j < |b.tree.levels[k]| && p == b.tree.levels[k][j].child
    ensures ParentOf(b.pages, p) == q <==>
              !(|SlotsOf(a.pages, q0)| == cap + 1 && key == Pushed(a.pages, q0, cap) &&
                HasChild(LeftHalf(SlotsOf(a.pages, q0), Cut(cap)), p))
  {
    ProgressLoose(a, b, k, 0, r);
  }

  lemma AddingAtRoot(a: State, k: nat, cap: nat, key: int, p: nat, r: nat)
    requires Adding(a, k, cap, 0, key, p, r) && k + 1 == |a.tree.levels|
    ensures 0 in a.pages && a.pages[0].RootPtrPage? && p == a.pages[0].root && p in a.inUse && r in a.inUse
    ensures p in a.pages && IsTreePage(a.pages[p]) && r in a.pages && IsTreePage(a.pages[r]) && p != r
    ensures |a.tree.levels[k]| == 1 && cap >= 3
  {
    RootHeight(a.pages, a.tree);
    AllTreePages(a.pages, a.tree);
  }

  lemma AddingFacts(a: State, k: nat, cap: nat, j: nat, key: int, p: nat, r: nat)
    requires Adding(a, k, cap, j, key, p, r) && forall x :: x in a.inUse ==> x in a.pages
    ensures k < |a.tree.levels| && j < |a.tree.levels[k]| && cap >= 3 && Fitting(a, k, cap, j, key, p)
    ensures p in a.pages && IsTreePage(a.pages[p]) && (a.pages[p].LeafPage? <==> k == 0)
    ensures ParentOf(a.pages, p) == 0 ==> k + 1 == |a.tree.levels| && j == 0 && a.tree.levels[k] == [Slot(0, p)]
    ensures ParentOf(a.pages, p) != 0 ==> k + 1 < |a.tree.levels|
  {
    LevelHeight(a.tree, k, j);
    ParentlessIsTop(a.pages, a.tree, k, cap, 0, j);
  }

  /** The new root has its first entry. */
  lemma NewRootDone(a: State, a1: State, s1: Store, d: State, k: nat, cap: nat, key: int, q: nat, p: nat, r: nat)
    requires Adding(a, k, cap, 0, key, p, r) && a.tree.levels[k] == [Slot(0, p)] && k + 1 == |a.tree.levels|
    requires NewRoot(a, a1, q) && d.inUse == a1.inUse
    requires s1 == a1.pages[q := InternalPage(0, if k == 0 then Leaf else Internal, [Slot(0, p), Slot(key, r)])]
    requires Reparented(s1, d.pages, q, [Slot(0, p), Slot(key, r)])
    requires d.tree == PushRoot(InsertNode(a.tree, k, 0, key, r), q)
    ensures Added(a, d, k, cap, 0, key, r)
  {
    RootHeight(a.pages, a.tree);
    AllTreePages(a.pages, a.tree);
    assert p == a.pages[0].root && p in a.tree.heightOf && a.tree.heightOf[p] == k && r != 0;
    NewRootFilled(a, a1, s1, d.pages, q, k, p, key, r);
    hide Above, Progress, Reparented;
    RootGrown(a.pages, d.pages, a.tree, k, cap, q, p, key, r, d.tree);
    ProgressRoot(a, d, k, q, p, key, r);
  }
}
