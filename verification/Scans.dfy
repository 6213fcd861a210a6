/** Scans of a B+ tree file along the chain of leaves. */
module Scans {
  import opened Pages
  import opened Paging
  import opened Levels
  import opened Trees
  import opened Merging
  import opened Leaves
  import opened LeafPairs
  import opened BTreeFiles

  /** What an iterator at tuple index of leaf j has still to give. */
  ghost function RestFrom(s: Store, leaves: Level, j: nat, index: nat): seq<Tuple>
    requires j < |leaves| && index <= |TuplesOf(s, leaves[j].child)|
  {
    TuplesOf(s, leaves[j].child)[index..] + Contents(s, leaves[j + 1..])
  }

  lemma RestOfLeaf(s: Store, leaves: Level, j: nat)
    requires j < |leaves|
    ensures RestFrom(s, leaves, j, 0) == Contents(s, leaves[j..])
    ensures Contents(s, leaves) == Contents(s, leaves[..j]) + Contents(s, leaves[j..])
  {
    assert leaves == leaves[..j] + leaves[j..];
    ContentsAppend(s, leaves[..j], leaves[j..]);
    assert leaves[j..][0] == leaves[j] && leaves[j..][1..] == leaves[j + 1..];
  }

  /** A leaf and its right neighbour. */
  lemma RightNeighbour(a: State, leafCap: nat, nodeCap: nat, j: nat)
    requires Legal(a, leafCap, nodeCap, 0) && leafCap >= 2 && j < |a.tree.levels[0]|
    ensures a.tree.levels != []
    ensures var leaves := a.tree.levels[0];
            && leaves[j].child != 0 && leaves[j].child in a.pages && a.pages[leaves[j].child].LeafPage?
            && a.pages[leaves[j].child].right == (if j + 1 < |leaves| then leaves[j + 1].child else 0)
            && (|leaves| > 1 ==> TuplesOf(a.pages, leaves[j].child) != [])
            && (j + 1 < |leaves| ==> leaves[j + 1].child != 0)
  {
    LeafPlace(a, leafCap, nodeCap, 0, j);
    if j + 1 < |a.tree.levels[0]| {
      LeafPlace(a, leafCap, nodeCap, 0, j + 1);
    }
    assert LeafOK(a.pages, a.tree.levels[0], j, leafCap, 0);
  }

  ghost predicate AllBelow(ts: seq<Tuple>, key: int) {
    forall i :: 0 <= i < |ts| ==> ts[i].key < key
  }

  /** The tuples of the leaves before leaf i. */
  lemma {:induction false} FrontBelow(s: Store, leaves: Level, i: nat, key: int)
    requires i <= |leaves|
    requires forall x, y :: 0 <= x < i && 0 <= y < |TuplesOf(s, leaves[x].child)| ==> TuplesOf(s, leaves[x].child)[y].key < key
    ensures AllBelow(Contents(s, leaves[..i]), key)
  {
    if i > 0 {
      FrontBelow(s, leaves, i - 1, key);
      assert leaves[..i] == leaves[..i - 1] + [leaves[i - 1]];
      ContentsAppend(s, leaves[..i - 1], [leaves[i - 1]]);
      ContentsSingle(s, leaves[i - 1]);
    }
  }

  class BTreeFileIterator {
    const file: BTreeFile
    var currentLeaf: nat   // 0 is null: the end
    var index: nat         // the place of the leaf iterator
    ghost var place: nat   // which leaf the current leaf is

    /** The file is as it was and the iterator is at a tuple, at the end, or in an empty
        root leaf. */
    ghost predicate Valid()
      reads this, file, file.store
    {
      && file.Valid() && !file.store.Empty()
      && (currentLeaf != 0 ==>
            && place < |file.tree.levels[0]| && file.tree.levels[0][place].child == currentLeaf
            && (index < |TuplesOf(file.store.pages, currentLeaf)| ||
                (index == 0 && |file.tree.levels[0]| == 1 && TuplesOf(file.store.pages, currentLeaf) == [])))
    }

    /** The tuples that have not been given yet. */
    ghost function Rest(): (r: seq<Tuple>)
      requires Valid()
      reads this, file, file.store
      ensures currentLeaf == 0 ==> r == []
    {
      if currentLeaf == 0 then [] else RestFrom(file.store.pages, file.tree.levels[0], place, index)
    }

    /** begin: the first leaf, or the left-most leaf that can hold f. */
    constructor (file: BTreeFile, f: Option<int>)
      requires file.Valid() && !file.store.Empty()
      modifies file.store`dirty
      ensures this.file == file && Valid() && file.store.dirty == old(file.store.dirty) && currentLeaf != 0
      ensures f == None ==> Rest() == file.Tuples()
      ensures f.Some? ==> exists skipped ::
                file.Tuples() == skipped + Rest() && AllBelow(skipped, f.value)
      ensures index == 0 && place < |file.tree.levels[0]| && file.tree.levels[0][place].child == currentLeaf
      ensures f == None ==> place == 0
      ensures f.Some? ==> var s, leaves := file.store.pages, file.tree.levels[0];
                && (place > 0 ==> leaves[place].key < f.value) && (place + 1 < |leaves| ==> f.value <= leaves[place + 1].key)
                && (forall x, y :: 0 <= x < place && 0 <= y < |TuplesOf(s, leaves[x].child)| ==> TuplesOf(s, leaves[x].child)[y].key < f.value)
                && (forall x, y :: place < x < |leaves| && 0 <= y < |TuplesOf(s, leaves[x].child)| ==>
                      f.value <= TuplesOf(s, leaves[x].child)[y].key)
    {
      hide Consistent, Tracked, Legal, Searching, Contents, Found, LeavesOK;
      this.file := file;
      ghost var a := file.State();
      LegalRoot(a, file.leafCap, file.nodeCap, 0);
      SearchRoot(a, file.leafCap, file.nodeCap, f);
      file.store.InPages();
      var rootPtr := file.store.GetPage(0, ReadOnly);
      var leaf;
      ghost var i;
      leaf, i := file.FindLeafPage(rootPtr.root, rootPtr.rootCategory, ReadOnly, f, |file.tree.levels| - 1, 0);
      currentLeaf, index, place := leaf, 0, i;
      FoundPlace(a, file.leafCap, file.nodeCap, i, leaf, f);
      RightNeighbour(a, file.leafCap, file.nodeCap, i);
      RestOfLeaf(a.pages, a.tree.levels[0], i);
      new;
      StartAt(a, file.leafCap, file.nodeCap, i, leaf, f);
    }

    /** operator*: the current tuple; none in an empty root leaf, or at the end. */
    method Current() returns (t: Option<Tuple>)
      requires Valid()
      ensures t == if Rest() == [] then None else Some(Rest()[0])
    {
      hide Consistent, Tracked, Legal, Contents;
      if currentLeaf == 0 {
        return None;
      }
      ghost var a := file.State();
      RightNeighbour(a, file.leafCap, file.nodeCap, place);
      var page := file.store.pages[currentLeaf];
      if index < |page.tuples| {
        t := Some(page.tuples[index]);
      } else {
        assert file.tree.levels[0][place + 1..] == [];
        EmptyContents(a.pages);
        t := None;
      }
    }

    /** operator++. */
    method Next()
      requires Valid() && currentLeaf != 0
      modifies this`currentLeaf, this`index, this`place
      ensures Valid() && (Rest() == if old(Rest()) == [] then [] else old(Rest())[1..])
      ensures currentLeaf == 0 <==> |old(Rest())| <= 1
    {
      hide Consistent, Tracked, Legal, Contents;
      ghost var a := file.State();
      RightNeighbour(a, file.leafCap, file.nodeCap, place);
      ghost var leaves := file.tree.levels[0];
      EmptyContents(a.pages);
      var page := file.store.pages[currentLeaf];
      if index != |page.tuples| {
        index := index + 1;
        if index != |page.tuples| {
          return;
        }
      }
      var nextId := page.right;
      if nextId == 0 {
        assert leaves[place + 1..] == [];
        currentLeaf := 0;
        return;
      }
      RightNeighbour(a, file.leafCap, file.nodeCap, place + 1);
      RestOfLeaf(a.pages, leaves, place + 1);
      currentLeaf, index, place := nextId, 0, place + 1;
    }
  }

  lemma EmptyContents(s: Store)
    ensures Contents(s, []) == []
  {
  }

  lemma FoundPlace(a: State, leafCap: nat, nodeCap: nat, i: nat, p: nat, f: Option<int>)
    requires Found(a.tree, i, p, f)
    ensures a.tree.levels != [] && i < |a.tree.levels[0]| && a.tree.levels[0][i].child == p
  {
  }

  /** What lies before the leaf where a search for f ends. */
  lemma StartAt(a: State, leafCap: nat, nodeCap: nat, i: nat, p: nat, f: Option<int>)
    requires Legal(a, leafCap, nodeCap, 0) && Found(a.tree, i, p, f)
    ensures a.tree.levels != [] && i < |a.tree.levels[0]|
    ensures f == None ==> i == 0
    ensures f.Some? ==> AllBelow(Contents(a.pages, a.tree.levels[0][..i]), f.value)
    ensures f.Some? ==> var s, leaves := a.pages, a.tree.levels[0];
              && (i > 0 ==> leaves[i].key < f.value) && (i + 1 < |leaves| ==> f.value <= leaves[i + 1].key)
              && (forall x, y :: 0 <= x < i && 0 <= y < |TuplesOf(s, leaves[x].child)| ==> TuplesOf(s, leaves[x].child)[y].key < f.value)
              && (forall x, y :: i < x < |leaves| && 0 <= y < |TuplesOf(s, leaves[x].child)| ==>
                    f.value <= TuplesOf(s, leaves[x].child)[y].key)
  {
    if f.Some? {
      hide LeavesOK;
      FoundLeaf(a.pages, a.tree.levels[0], leafCap, i, f.value);
      FrontBelow(a.pages, a.tree.levels[0], i, f.value);
    }
  }

  lemma GiveFirst(ts: seq<Tuple>, rest: seq<Tuple>)
    requires rest != []
    ensures ts + [rest[0]] + rest[1..] == ts + rest
  {
  }

  /** A scan: every tuple the iterator gives until it is at the end.  None when there is no
      tuple where the iterator starts, which is so exactly when the file has none. */
  method Scan(file: BTreeFile) returns (result: Option<seq<Tuple>>)
    requires file.Valid() && !file.store.Empty()
    modifies file.store`dirty
    ensures file.store.dirty == old(file.store.dirty)
    ensures result == if file.Tuples() == [] then None else Some(file.Tuples())
  {
    hide *;
    var it := new BTreeFileIterator(file, None);
    ghost var all := it.Rest();
    var ts := [];
    while it.currentLeaf != 0
      modifies it
      invariant it.file == file && it.Valid() && file.store.dirty == old(file.store.dirty)
      invariant ts + it.Rest() == all
      invariant if it.currentLeaf == 0 then all != [] else all != [] ==> it.Rest() != []
      decreases |it.Rest()|
    {
      var t := it.Current();
      if t == None {
        return None;
      }
      GiveFirst(ts, it.Rest());
      ts := ts + [t.value];
      it.Next();
    }
    assert ts + it.Rest() == ts;
    result := Some(ts);
  }
}
