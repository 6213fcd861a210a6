/** Runs of operations on a B+ tree file: from an empty file, every run leaves a legal tree
    that holds what a sorted sequence would. */
module Runs {
  import opened Pages
  import opened Paging
  import opened Levels
  import opened Trees
  import opened Leaves
  import opened LeafPairs
  import opened LegalTrees
  import opened BTreeFiles
  import opened Scans
  import opened DistinctKeys

  // ------------------------------------------------------------------ the reference

  predicate HasKey(ts: seq<Tuple>, key: int) {
    exists i :: 0 <= i < |ts| && ts[i].key == key
  }

  /** Where a key is. */
  function KeyIndex(ts: seq<Tuple>, key: int): (i: nat)
    requires HasKey(ts, key)
    ensures i < |ts| && ts[i].key == key
  {
    if ts[0].key == key then 0 else
      assert exists i :: 0 <= i < |ts[1..]| && ts[1..][i].key == key by { HasKeyLater(ts, key); }
      1 + KeyIndex(ts[1..], key)
  }

  lemma HasKeyLater(ts: seq<Tuple>, key: int)
    requires HasKey(ts, key) && ts[0].key != key
    ensures HasKey(ts[1..], key)
  {
    var i :| 0 <= i < |ts| && ts[i].key == key;
    assert ts[1..][i - 1].key == key;
  }

  /** An operation of a client that keeps keys distinct. */
  datatype Op = Insert(tuple: Tuple) | Delete(key: int)

  /** What an operation does to a sorted sequence. */
  function Apply(ts: seq<Tuple>, op: Op): seq<Tuple> {
    match op
    case Insert(t) => if HasKey(ts, t.key) then ts else SortedInsert(ts, t)
    case Delete(key) => if HasKey(ts, key) then RemoveTuple(ts, KeyIndex(ts, key)) else ts
  }

  function ApplyAll(ts: seq<Tuple>, ops: seq<Op>): seq<Tuple> {
    if ops == [] then ts else Apply(ApplyAll(ts, ops[..|ops| - 1]), ops[|ops| - 1])
  }

  lemma ApplyNext(ts: seq<Tuple>, ops: seq<Op>, i: nat)
    requires i < |ops|
    ensures ApplyAll(ts, ops[..i + 1]) == Apply(ApplyAll(ts, ops[..i]), ops[i])
  {
    assert ops[..i + 1][..i] == ops[..i];
  }

  lemma InsertDistinct(ts: seq<Tuple>, t: Tuple)
    requires Distinct(ts) && !HasKey(ts, t.key)
    ensures Distinct(SortedInsert(ts, t))
  {
    var r := Rank(ts, t.key);
    var us := SortedInsert(ts, t);
    assert forall x :: 0 <= x < |us| && x != r ==> us[x] == ts[if x < r then x else x - 1];
  }

  /** The reference is a map from keys to tuples, in key order: an insertion adds its tuple
      unless the key is there, a deletion takes away what has the key. */
  lemma ApplyMeans(ts: seq<Tuple>, op: Op)
    requires Distinct(ts) && SortedTuples(ts)
    ensures Distinct(Apply(ts, op)) && SortedTuples(Apply(ts, op))
    ensures op.Insert? ==> forall x ::
              x in Apply(ts, op) <==> x in ts || (x == op.tuple && forall i :: 0 <= i < |ts| ==> ts[i].key != op.tuple.key)
    ensures op.Delete? ==> forall x :: x in Apply(ts, op) <==> x in ts && x.key != op.key
  {
    hide SortedInsert, SortedTuples;
    match op
    case Insert(t) =>
      if !HasKey(ts, t.key) {
        InsertDistinct(ts, t);
        SortedInsertSorted(ts, t);
        SortedInsertElements(ts, t);
        forall x
          ensures x in SortedInsert(ts, t) <==> x in ts || x == t
        {
          assert x in SortedInsert(ts, t) <==> x in multiset(SortedInsert(ts, t));
        }
      }
    case Delete(key) =>
      if HasKey(ts, key) {
        RemovedSorted(ts, KeyIndex(ts, key));
        RemovedIs(ts, KeyIndex(ts, key));
      }
  }

  lemma RemovedIs(ts: seq<Tuple>, i: nat)
    requires Distinct(ts) && i < |ts|
    ensures forall x :: x in RemoveTuple(ts, i) <==> x in ts && x.key != ts[i].key
  {
    var us := RemoveTuple(ts, i);
    assert forall k :: 0 <= k < |us| ==> us[k] == ts[if k < i then k else k + 1];
    forall x | x in ts && x.key != ts[i].key
      ensures x in us
    {
      var k :| 0 <= k < |ts| && ts[k] == x;
      assert us[if k < i then k else k - 1] == x;
    }
  }

  // ------------------------------------------------------------------ finding a tuple

  /** The record id of the tuple with a key: where an iterator that starts at the key
      finds it. */
  method Find(file: BTreeFile, key: int) returns (found: bool, pageId: nat, index: nat)
    requires file.Valid() && !file.store.Empty()
    modifies file.store`dirty
    ensures found <==> HasKey(file.Tuples(), key)
    ensures found ==> pageId in file.store.inUse && pageId in file.store.pages && file.store.pages[pageId].LeafPage?
    ensures found ==> index < |TuplesOf(file.store.pages, pageId)| && TuplesOf(file.store.pages, pageId)[index].key == key
    ensures found ==> TuplesOf(file.store.pages, pageId)[index] in file.Tuples()
    ensures file.store.dirty == old(file.store.dirty)
  {
    hide Consistent, Tracked, Legal, Contents, RestFrom, HasKey, SortedTuples, AllBelow,
         BTreeFileIterator.Rest, BTreeFileIterator.Valid, BTreeFile.Tuples, BTreeFile.Valid;
    ghost var all := file.Tuples();
    var it := new BTreeFileIterator(file, Some(key));
    ghost var skipped :| all == skipped + it.Rest() && AllBelow(skipped, key);
    SortedFile(file);
    found, pageId, index := false, 0, 0;
    while it.currentLeaf != 0
      modifies it
      invariant it.file == file && it.Valid()
      invariant all == skipped + it.Rest() && AllBelow(skipped, key)
      decreases |it.Rest()|, it.currentLeaf
    {
      var t := it.Current();
      if t == None {
        break;
      }
      if t.value.key >= key {
        if t.value.key == key {
          found, pageId, index := true, it.currentLeaf, it.index;
          KeyThere(all, skipped, it.Rest(), key);
          IteratorPlace(it);
        } else {
          KeyNotThere(all, skipped, it.Rest(), key);
        }
        return;
      }
      SkipOne(all, skipped, it.Rest(), key);
      skipped := skipped + [t.value];
      it.Next();
    }
    KeyNotThere(all, skipped, it.Rest(), key);
  }

  lemma SkipOne(all: seq<Tuple>, skipped: seq<Tuple>, rest: seq<Tuple>, key: int)
    requires all == skipped + rest && rest != [] && AllBelow(skipped, key) && rest[0].key < key
    ensures all == (skipped + [rest[0]]) + rest[1..] && AllBelow(skipped + [rest[0]], key)
  {
  }

  lemma KeyThere(all: seq<Tuple>, skipped: seq<Tuple>, rest: seq<Tuple>, key: int)
    requires all == skipped + rest && rest != [] && rest[0].key == key
    ensures HasKey(all, key) && rest[0] in all
  {
    assert all[|skipped|] == rest[0];
  }

  lemma KeyNotThere(all: seq<Tuple>, skipped: seq<Tuple>, rest: seq<Tuple>, key: int)
    requires all == skipped + rest && SortedTuples(all)
    requires AllBelow(skipped, key)
    requires rest != [] ==> key < rest[0].key
    ensures !HasKey(all, key)
  {
    forall i | 0 <= i < |all|
      ensures all[i].key != key
    {
      if i >= |skipped| {
        assert all[|skipped|] == rest[0] && all[i] == rest[i - |skipped|];
      } else {
        assert all[i] == skipped[i];
      }
    }
  }

  lemma SortedFile(file: BTreeFile)
    requires file.Valid() && !file.store.Empty()
    ensures SortedTuples(file.Tuples())
  {
    hide Contents, SortedTuples, Legal, Consistent, Tracked;
    LegalRoot(file.State(), file.leafCap, file.nodeCap, 0);
    LegalSorted(file.State(), file.leafCap, file.nodeCap);
  }

  /** An iterator at a tuple knows its record id. */
  lemma IteratorPlace(it: BTreeFileIterator)
    requires it.Valid() && it.currentLeaf != 0 && it.Rest() != []
    ensures it.currentLeaf in it.file.store.inUse && it.currentLeaf in it.file.store.pages
    ensures it.file.store.pages[it.currentLeaf].LeafPage?
    ensures it.index < |TuplesOf(it.file.store.pages, it.currentLeaf)|
    ensures TuplesOf(it.file.store.pages, it.currentLeaf)[it.index] == it.Rest()[0]
  {
    hide Contents, Legal, Consistent, Tracked;
    var a := it.file.State();
    LegalRoot(a, it.file.leafCap, it.file.nodeCap, 0);
    LeafPlace(a, it.file.leafCap, it.file.nodeCap, 0, it.place);
    EmptyContents(a.pages);
    assert |a.tree.levels[0]| == 1 ==> a.tree.levels[0][it.place + 1..] == [];
  }

  // ------------------------------------------------------------------ runs

  /** A file that a run of operations on distinct keys keeps. */
  ghost predicate Good(file: BTreeFile)
    reads file, file.store
  {
    file.Valid() && Distinct(file.Tuples()) && SortedTuples(file.Tuples())
  }

  /** Good files are legal trees that hold their tuples in order. */
  lemma GoodIsLegal(file: BTreeFile)
    requires Good(file) && !file.store.Empty()
    ensures file.tree.levels != [] && 0 in file.store.pages && file.store.pages[0].RootPtrPage?
    ensures var root, h := file.store.pages[0].root, |file.tree.levels| - 1;
            && LegalTree(file.store.pages, root, 0, h, None, None, file.leafCap, file.nodeCap)
            && InOrder(file.store.pages, root, h) == file.Tuples()
            && DoublyLinked(file.store.pages, LeavesBelow(file.store.pages, root, h))
  {
    hide Contents, Legal, Consistent, Tracked, LegalTree, DoublyLinked, InOrder, LeavesBelow, SortedTuples;
    LegalFile(file.State(), file.leafCap, file.nodeCap);
  }

  /** An insertion of a new key succeeds. */
  method InsertNew(file: BTreeFile, t: Tuple)
    requires Good(file) && !HasKey(file.Tuples(), t.key) && (file.leafCap >= 3 || file.Anchored())
    modifies file`tree, file.store
    ensures Good(file) && file.Tuples() == SortedInsert(old(file.Tuples()), t)
    ensures !file.store.Empty() && (old(file.Anchored()) ==> file.Anchored())
  {
    hide Contents, Legal, Consistent, Tracked, SortedTuples, Distinct, InsertTies, SortedInsert, BTreeFile.Anchored;
    ghost var before := file.Tuples();
    NoTie(file, t.key);
    var ok, dirtyPages, place := file.InsertTuple(t);
    InsertDistinct(before, t);
    InsertInPlace(before, file.Tuples(), t);
  }

  lemma NoTie(file: BTreeFile, key: int)
    requires Good(file) && (file.leafCap >= 3 || file.Anchored())
    ensures !InsertTies(file.store.pages, key, file.leafCap, file.nodeCap, |file.tree.levels|)
  {
    hide Contents, Legal, Consistent, Tracked, SortedTuples, Distinct, Leaves.Anchored, LeafFor, WouldTie;
    if !file.store.Empty() {
      LegalRoot(file.State(), file.leafCap, file.nodeCap, 0);
      InsertNeverTies(file.State(), key, file.leafCap, file.nodeCap);
    }
  }

  /** A deletion by key. */
  method DeleteKey(file: BTreeFile, key: int)
    requires Good(file) && file.nodeCap >= 5
    modifies file`tree, file.store
    ensures Good(file) && file.Tuples() == Apply(old(file.Tuples()), Delete(key))
  {
    hide Contents, Legal, Consistent, Tracked, SortedTuples, Distinct, RemoveTuple, HasKey, KeyIndex;
    ghost var before := file.Tuples();
    if |file.store.pages| == 0 {
      EmptyHasNoKey(file, key);
      return;
    }
    NotEmpty(file);
    var found, pageId, index := Find(file, key);
    if found {
      ghost var t := TuplesOf(file.store.pages, pageId)[index];
      KeyPlace(before, t);
      var ok, dirtyPages := file.DeleteTuple(pageId, index);
      DeleteInPlace(before, file.Tuples(), KeyIndex(before, key));
      RemovedSorted(before, KeyIndex(before, key));
    }
  }

  lemma EmptyHasNoKey(file: BTreeFile, key: int)
    requires file.Valid() && file.store.pages == map[]
    ensures !HasKey(file.Tuples(), key)
  {
  }

  lemma NotEmpty(file: BTreeFile)
    requires |file.store.pages| != 0
    ensures !file.store.Empty()
  {
  }

  lemma KeyPlace(ts: seq<Tuple>, t: Tuple)
    requires Distinct(ts) && t in ts
    ensures HasKey(ts, t.key) && ts[KeyIndex(ts, t.key)] == t
  {
    var i :| 0 <= i < |ts| && ts[i] == t;
    assert ts[i].key == t.key;
    assert KeyIndex(ts, t.key) == i;
  }

  /** Any run of insertions and deletions: from an empty file on, the file holds what the
      reference holds, and stays legal. */
  method Run(file: BTreeFile, ops: seq<Op>)
    requires Good(file) && file.leafCap >= 3 && file.nodeCap >= 5
    modifies file`tree, file.store
    ensures Good(file) && file.Tuples() == ApplyAll(old(file.Tuples()), ops)
  {
    hide Good, BTreeFile.Tuples, Apply, HasKey;
    ghost var before := file.Tuples();
    var i := 0;
    while i < |ops|
      invariant 0 <= i <= |ops| && Good(file) && file.Tuples() == ApplyAll(before, ops[..i])
    {
      ApplyNext(before, ops, i);
      Perform(file, ops[i]);
      i := i + 1;
    }
    assert ops[..i] == ops;
  }

  method Perform(file: BTreeFile, op: Op)
    requires Good(file) && file.leafCap >= 3 && file.nodeCap >= 5
    modifies file`tree, file.store
    ensures Good(file) && file.Tuples() == Apply(old(file.Tuples()), op)
  {
    hide Contents, Legal, Consistent, Tracked, SortedTuples, Distinct, HasKey, SortedInsert, KeyIndex, RemoveTuple;
    match op
    case Insert(t) =>
      var found := false;
      if |file.store.pages| == 0 {
        EmptyHasNoKey(file, t.key);
      } else {
        NotEmpty(file);
        var pageId, index;
        found, pageId, index := Find(file, t.key);
      }
      if !found {
        InsertNew(file, t);
      }
    case Delete(key) =>
      DeleteKey(file, key);
  }

  /** Insertions of new, pairwise distinct keys, with leaves of two tuples or more: none
      fails, and the file ends up with all the tuples, sorted. */
  method InsertAll(file: BTreeFile, ts: seq<Tuple>)
    requires Good(file) && file.Anchored() && Distinct(file.Tuples() + ts)
    modifies file`tree, file.store
    ensures Good(file) && file.Anchored()
    ensures multiset(file.Tuples()) == multiset(old(file.Tuples())) + multiset(ts)
  {
    hide Good, BTreeFile.Tuples, BTreeFile.Anchored, SortedInsert, HasKey, Distinct;
    ghost var before := file.Tuples();
    var i := 0;
    while i < |ts|
      invariant 0 <= i <= |ts| && Good(file) && file.Anchored()
      invariant multiset(file.Tuples()) == multiset(before) + multiset(ts[..i])
    {
      ghost var now := file.Tuples();
      NewKey(before, ts, i, now);
      InsertNew(file, ts[i]);
      SortedInsertElements(now, ts[i]);
      TakeOneMore(ts, i);
      i := i + 1;
    }
    assert ts[..i] == ts;
  }

  /** A new file holds nothing, and is good. */
  method NewFile(leafCap: nat, nodeCap: nat, numSlots: nat) returns (file: BTreeFile)
    requires leafCap >= 2 && nodeCap >= 3 && numSlots > 0
    ensures fresh(file) && fresh(file.store) && file.leafCap == leafCap && file.nodeCap == nodeCap
    ensures Good(file) && file.Tuples() == [] && file.Anchored()
  {
    file := new BTreeFile(leafCap, nodeCap, numSlots);
  }

  /** Any run of insertions and deletions from an empty file. */
  method RunFromEmpty(leafCap: nat, nodeCap: nat, numSlots: nat, ops: seq<Op>) returns (file: BTreeFile)
    requires leafCap >= 3 && nodeCap >= 5 && numSlots > 0
    ensures Good(file) && file.Tuples() == ApplyAll([], ops)
  {
    hide Good, BTreeFile.Tuples, BTreeFile.Anchored, ApplyAll;
    file := NewFile(leafCap, nodeCap, numSlots);
    Run(file, ops);
  }

  /** Any run of insertions of pairwise distinct keys into an empty file. */
  method InsertAllFromEmpty(leafCap: nat, nodeCap: nat, numSlots: nat, ts: seq<Tuple>) returns (file: BTreeFile)
    requires leafCap >= 2 && nodeCap >= 3 && numSlots > 0 && Distinct(ts)
    ensures Good(file) && multiset(file.Tuples()) == multiset(ts)
  {
    hide Good, BTreeFile.Tuples, BTreeFile.Anchored, Distinct;
    file := NewFile(leafCap, nodeCap, numSlots);
    assert [] + ts == ts;
    InsertAll(file, ts);
  }

  lemma TakeOneMore(ts: seq<Tuple>, i: nat)
    requires i < |ts|
    ensures multiset(ts[..i + 1]) == multiset(ts[..i]) + multiset{ts[i]}
  {
    assert ts[..i + 1] == ts[..i] + [ts[i]];
  }

  lemma NewKey(before: seq<Tuple>, ts: seq<Tuple>, i: nat, now: seq<Tuple>)
    requires Distinct(before + ts) && i < |ts| && multiset(now) == multiset(before) + multiset(ts[..i])
    ensures !HasKey(now, ts[i].key)
  {
    forall x | 0 <= x < |now|
      ensures now[x].key != ts[i].key
    {
      assert now[x] in multiset(now);
      EarlierKey(before, ts, i, now[x]);
    }
  }

  lemma EarlierKey(before: seq<Tuple>, ts: seq<Tuple>, i: nat, t: Tuple)
    requires Distinct(before + ts) && i < |ts| && t in multiset(before) + multiset(ts[..i])
    ensures t.key != ts[i].key
  {
    var all := before + ts;
    assert all[|before| + i] == ts[i];
    if t in before {
      var y :| 0 <= y < |before| && before[y] == t;
      assert all[y] == before[y];
    } else {
      assert t in ts[..i];
      var y :| 0 <= y < i && ts[y] == t;
      assert all[|before| + y] == ts[y];
    }
  }
}
