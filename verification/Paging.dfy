/** The page-level half of a B+ tree file: fetching pages into the write set of an
    operation, and allocating and freeing pages with the chain of header pages. */
module Paging {
  import opened Pages

  datatype Permissions = ReadOnly | ReadWrite

  // ------------------------------------------------------------ the header chain

  /** setHeaderId on the root pointer page, setNextPageId on a header page. */
  function LinkTo(page: Page, headerId: nat): Page {
    match page
    case RootPtrPage(root, _, category) => RootPtrPage(root, headerId, category)
    case HeaderPage(_, prev, used) => HeaderPage(headerId, prev, used)
    case _ => page
  }

  function UsedOf(s: Store, p: nat): seq<bool> {
    if p in s && s[p].HeaderPage? then s[p].used else []
  }

  /** The bitmap the chain of header pages holds: bit p is set when page p is used. */
  function Bits(s: Store, chain: seq<nat>): seq<bool> {
    if chain == [] then [] else UsedOf(s, chain[0]) + Bits(s, chain[1..])
  }

  ghost predicate Unused(bits: seq<bool>, p: nat) {
    p < |bits| && !bits[p]
  }

  ghost predicate NoDupPages(chain: seq<nat>) {
    forall i, j :: 0 <= i < j < |chain| ==> chain[i] != chain[j]
  }

  ghost predicate HeaderPages(s: Store, chain: seq<nat>, numSlots: nat) {
    forall i :: 0 <= i < |chain| ==>
      chain[i] in s && s[chain[i]].HeaderPage? && |s[chain[i]].used| == numSlots
  }

  /** Page i of the chain names its neighbours. */
  ghost predicate ChainLink(s: Store, chain: seq<nat>, i: nat)
    requires i < |chain| && chain[i] in s && s[chain[i]].HeaderPage?
  {
    && s[chain[i]].next == (if i + 1 < |chain| then chain[i + 1] else 0)
    && s[chain[i]].prev == (if i > 0 then chain[i - 1] else 0)
  }

  /** The pages of the chain are distinct header pages, doubly linked with null ends. */
  ghost predicate Chained(s: Store, chain: seq<nat>, numSlots: nat) {
    && NoDupPages(chain)
    && HeaderPages(s, chain, numSlots)
    && forall i :: 0 <= i < |chain| ==> ChainLink(s, chain, i)
  }

  /** Pages 1..numPages are partitioned into the free pages, which are those whose bit
      is clear, the pages in use and the pages of the header chain. */
  ghost predicate Partitioned(bits: seq<bool>, numPages: nat, inUse: set<nat>, chain: seq<nat>) {
    && 0 !in inUse && 0 !in chain
    && (forall p :: p in inUse ==> p <= numPages && p !in chain)
    && (forall p :: p in chain ==> p <= numPages)
    && (forall p: nat :: Unused(bits, p) <==> 1 <= p <= numPages && p !in inUse && p !in chain)
  }

  lemma {:induction false} BitsAppend(s: Store, a: seq<nat>, b: seq<nat>)
    ensures Bits(s, a + b) == Bits(s, a) + Bits(s, b)
  {
    if a == [] {
      assert a + b == b;
    } else {
      assert (a + b)[0] == a[0] && (a + b)[1..] == a[1..] + b;
      BitsAppend(s, a[1..], b);
    }
  }

  lemma {:induction false} BitsFrame(s: Store, s': Store, chain: seq<nat>)
    requires forall i :: 0 <= i < |chain| ==> UsedOf(s', chain[i]) == UsedOf(s, chain[i])
    ensures Bits(s', chain) == Bits(s, chain)
  {
    if chain != [] {
      assert forall i :: 0 <= i < |chain[1..]| ==> chain[1..][i] == chain[i + 1];
      BitsFrame(s, s', chain[1..]);
    }
  }

  lemma BitsSingle(s: Store, p: nat)
    ensures Bits(s, [p]) == UsedOf(s, p)
  {
    assert Bits(s, [p][1..]) == [];
  }

  lemma BitsAt(s: Store, chain: seq<nat>, i: nat)
    requires i < |chain|
    ensures Bits(s, chain) == Bits(s, chain[..i]) + UsedOf(s, chain[i]) + Bits(s, chain[i + 1..])
  {
    assert chain == chain[..i] + [chain[i]] + chain[i + 1..];
    BitsAppend(s, chain[..i] + [chain[i]], chain[i + 1..]);
    BitsAppend(s, chain[..i], [chain[i]]);
    BitsSingle(s, chain[i]);
  }

  lemma BitsTake(s: Store, chain: seq<nat>, i: nat)
    requires i < |chain|
    ensures Bits(s, chain[..i + 1]) == Bits(s, chain[..i]) + UsedOf(s, chain[i])
  {
    assert chain[..i + 1] == chain[..i] + [chain[i]];
    BitsAppend(s, chain[..i], [chain[i]]);
    BitsSingle(s, chain[i]);
  }

  /** The page whose bit is the first one of header page i. */
  function FirstPage(i: nat, numSlots: nat): nat {
    i * numSlots
  }

  lemma FirstPageNext(i: nat, numSlots: nat)
    ensures FirstPage(i + 1, numSlots) == FirstPage(i, numSlots) + numSlots
  {
  }

  lemma {:induction false} BitsLength(s: Store, chain: seq<nat>, numSlots: nat)
    requires forall i :: 0 <= i < |chain| ==> |UsedOf(s, chain[i])| == numSlots
    ensures |Bits(s, chain)| == FirstPage(|chain|, numSlots)
  {
    if chain != [] {
      assert forall i :: 0 <= i < |chain[1..]| ==> chain[1..][i] == chain[i + 1];
      BitsLength(s, chain[1..], numSlots);
      FirstPageNext(|chain| - 1, numSlots);
    }
  }

  /** Where the bits of header page i start. */
  lemma BitsPrefix(s: Store, chain: seq<nat>, numSlots: nat, i: nat)
    requires Chained(s, chain, numSlots) && i <= |chain|
    ensures |Bits(s, chain[..i])| == FirstPage(i, numSlots)
    ensures Bits(s, chain[..i]) <= Bits(s, chain)
  {
    BitsLength(s, chain[..i], numSlots);
    assert chain == chain[..i] + chain[i..];
    BitsAppend(s, chain[..i], chain[i..]);
  }

  /** Bit slot of header page i is the one of page i * numSlots + slot. */
  lemma BitOfPage(s: Store, chain: seq<nat>, numSlots: nat, i: nat, slot: nat)
    requires Chained(s, chain, numSlots) && i < |chain| && slot < numSlots
    ensures 0 <= i * numSlots + slot < |Bits(s, chain)|
    ensures chain[i] in s && s[chain[i]].HeaderPage? && |s[chain[i]].used| == numSlots
    ensures Unused(Bits(s, chain), i * numSlots + slot) <==> !s[chain[i]].used[slot]
  {
    BitsPrefix(s, chain, numSlots, i);
    BitsAt(s, chain, i);
  }

  lemma SetInMiddle(a: seq<bool>, m: seq<bool>, b: seq<bool>, i: nat, value: bool)
    requires i < |m|
    ensures a + m[i := value] + b == (a + m + b)[|a| + i := value]
  {
  }

  /** Changing one bit of header page i changes that bit of the bitmap. */
  lemma BitsMark(s: Store, s': Store, chain: seq<nat>, numSlots: nat, i: nat, slot: nat, value: bool)
    requires Chained(s, chain, numSlots) && i < |chain| && slot < numSlots
    requires UsedOf(s', chain[i]) == UsedOf(s, chain[i])[slot := value]
    requires forall j :: 0 <= j < |chain| && j != i ==> UsedOf(s', chain[j]) == UsedOf(s, chain[j])
    ensures FirstPage(i, numSlots) + slot < |Bits(s, chain)|
    ensures Bits(s', chain) == Bits(s, chain)[FirstPage(i, numSlots) + slot := value]
  {
    var a, m, b := Bits(s, chain[..i]), UsedOf(s, chain[i]), Bits(s, chain[i + 1..]);
    BitsPrefix(s, chain, numSlots, i);
    BitsAt(s, chain, i);
    BitsAt(s', chain, i);
    BitsFrame(s, s', chain[..i]);
    BitsFrame(s, s', chain[i + 1..]);
    SetInMiddle(a, m, b, slot, value);
  }

  lemma ChainedFrame(s: Store, s': Store, chain: seq<nat>, numSlots: nat)
    requires Chained(s, chain, numSlots)
    requires forall i :: 0 <= i < |chain| ==> chain[i] in s' && s'[chain[i]] == s[chain[i]]
    ensures Chained(s', chain, numSlots)
    ensures Bits(s', chain) == Bits(s, chain)
  {
    BitsFrame(s, s', chain);
    forall i | 0 <= i < |chain|
      ensures ChainLink(s', chain, i)
    {
      assert ChainLink(s, chain, i);
    }
  }

  /** Page p, at the end of the chain, is linked after the others. */
  lemma ChainedExtend(s: Store, s': Store, chain: seq<nat>, numSlots: nat, p: nat)
    requires Chained(s, chain, numSlots) && p !in chain && p != 0
    requires p in s' && s'[p] == HeaderPage(0, if chain == [] then 0 else chain[|chain| - 1], seq(numSlots, _ => true))
    requires forall i :: 0 <= i < |chain| ==>
               && chain[i] in s'
               && s'[chain[i]] == (if i == |chain| - 1 then s[chain[i]].(next := p) else s[chain[i]])
    ensures Chained(s', chain + [p], numSlots)
    ensures Bits(s', chain + [p]) == Bits(s, chain) + seq(numSlots, _ => true)
  {
    hide Bits;
    BitsFrame(s, s', chain);
    BitsAppend(s', chain, [p]);
    BitsSingle(s', p);
    var chain' := chain + [p];
    forall i | 0 <= i < |chain'|
      ensures ChainLink(s', chain', i)
    {
      assert i < |chain| ==> ChainLink(s, chain, i);
    }
  }

  /** The store with page headerId made a header page that follows page prevId. */
  function WithHeader(s: Store, numSlots: nat, headerId: nat, prevId: nat): (s': Store)
    requires prevId in s && headerId in s && prevId != headerId
    ensures s'.Keys == s.Keys
    ensures forall p :: p in s && p != headerId && p != prevId ==> s'[p] == s[p]
    ensures s'[prevId] == LinkTo(s[prevId], headerId)
    ensures s'[headerId] == HeaderPage(0, prevId, seq(numSlots, _ => true))
  {
    s[headerId := HeaderPage(0, prevId, seq(numSlots, _ => true))][prevId := LinkTo(s[prevId], headerId)]
  }

  lemma WithHeaderChained(s: Store, chain: seq<nat>, numSlots: nat, headerId: nat, prevId: nat)
    requires Chained(s, chain, numSlots) && headerId !in chain && headerId != 0 && headerId in s
    requires prevId == (if chain == [] then 0 else chain[|chain| - 1]) && prevId in s
    requires 0 !in chain
    ensures prevId != headerId
    ensures Chained(WithHeader(s, numSlots, headerId, prevId), chain + [headerId], numSlots)
    ensures Bits(WithHeader(s, numSlots, headerId, prevId), chain + [headerId]) ==
            Bits(s, chain) + seq(numSlots, _ => true)
  {
    ChainedExtend(s, WithHeader(s, numSlots, headerId, prevId), chain, numSlots, headerId);
  }

  ghost predicate AllSet(bits: seq<bool>) {
    forall i :: 0 <= i < |bits| ==> bits[i]
  }

  lemma FirstUnused(bits: seq<bool>, a: seq<bool>, m: seq<bool>, b: seq<bool>, slot: nat)
    requires bits == a + m + b && AllSet(a) && slot < |m| && !m[slot]
    requires forall i :: 0 <= i < slot ==> m[i]
    ensures Unused(bits, |a| + slot)
    ensures forall p :: Unused(bits, p) ==> |a| + slot <= p
  {
    assert bits[|a| + slot] == m[slot];
    forall p: nat | p < |a| + slot
      ensures bits[p]
    {
      assert bits[p] == if p < |a| then a[p] else m[p - |a|];
    }
  }

  /** A free page is handed out: its bit is set. */
  lemma PartitionedTake(bits: seq<bool>, numPages: nat, inUse: set<nat>, chain: seq<nat>, p: nat)
    requires Partitioned(bits, numPages, inUse, chain) && Unused(bits, p)
    ensures 1 <= p <= numPages && p !in inUse && p !in chain
    ensures Partitioned(bits[p := true], numPages, inUse + {p}, chain)
  {
    var bits', inUse' := bits[p := true], inUse + {p};
    forall q: nat
      ensures Unused(bits', q) <==> 1 <= q <= numPages && q !in inUse' && q !in chain
    {
      assert Unused(bits, q) <==> 1 <= q <= numPages && q !in inUse && q !in chain;
    }
  }

  /** A page in use is freed: its bit is cleared. */
  lemma PartitionedFree(bits: seq<bool>, numPages: nat, inUse: set<nat>, chain: seq<nat>, p: nat)
    requires Partitioned(bits, numPages, inUse, chain) && p in inUse && p < |bits|
    ensures Partitioned(bits[p := false], numPages, inUse - {p}, chain)
  {
    var bits', inUse' := bits[p := false], inUse - {p};
    forall q: nat
      ensures Unused(bits', q) <==> 1 <= q <= numPages && q !in inUse' && q !in chain
    {
      assert Unused(bits, q) <==> 1 <= q <= numPages && q !in inUse && q !in chain;
    }
  }

  /** A page in use becomes the last page of the header chain, with all its bits set. */
  lemma PartitionedExtend(bits: seq<bool>, more: seq<bool>, numPages: nat, inUse: set<nat>, chain: seq<nat>, p: nat)
    requires Partitioned(bits, numPages, inUse, chain) && p in inUse && AllSet(more)
    ensures Partitioned(bits + more, numPages, inUse - {p}, chain + [p])
  {
    var bits', inUse', chain' := bits + more, inUse - {p}, chain + [p];
    forall q: nat
      ensures Unused(bits', q) <==> 1 <= q <= numPages && q !in inUse' && q !in chain'
    {
      assert Unused(bits, q) <==> 1 <= q <= numPages && q !in inUse && q !in chain;
      assert Unused(bits', q) ==> Unused(bits, q);
    }
  }

  lemma NoBits(s: Store, chain: seq<nat>)
    ensures AllSet(Bits(s, chain[..0])) && (chain == [] ==> AllSet(Bits(s, chain)))
  {
  }

  lemma AllSetMore(a: seq<bool>, b: seq<bool>)
    requires AllSet(a) && AllSet(b)
    ensures AllSet(a + b)
  {
  }

  /** getEmptySlot: the first clear bit, or -1. */
  method GetEmptySlot(used: seq<bool>) returns (slot: int)
    ensures -1 <= slot < |used|
    ensures slot == -1 ==> AllSet(used)
    ensures slot >= 0 ==> !used[slot] && forall i :: 0 <= i < slot ==> used[i]
  {
    var i := 0;
    while i < |used|
      invariant 0 <= i <= |used|
      invariant forall j :: 0 <= j < i ==> used[j]
    {
      if !used[i] {
        return i;
      }
      i := i + 1;
    }
    return -1;
  }

  // ---------------------------------------------------- what the store always keeps

  /** The pages of a created file: 0..numPages, with page 0 the root pointer page, a
      well-linked header chain and a partition of the pages that its bits describe. */
  ghost predicate Consistent(s: Store, numPages: nat, inUse: set<nat>, chain: seq<nat>, numSlots: nat) {
    && numSlots > 0
    && (forall p: nat :: p in s <==> p <= numPages)
    && s[0].RootPtrPage? && s[0].header == (if chain == [] then 0 else chain[0])
    && Chained(s, chain, numSlots)
    && Partitioned(Bits(s, chain), numPages, inUse, chain)
  }

  /** Every page that is not as it was when the operation started is in the write set. */
  ghost predicate Tracked(s: Store, dirty: set<nat>, base: Store) {
    forall p :: p in s && p !in dirty ==> p in base && base[p] == s[p]
  }

  /** Both pages of a new file are in the write set, so every page is. */
  lemma CreatedTracked(s: Store, dirty: set<nat>, base: Store)
    requires Tracked(s, dirty, base) && base.Keys <= dirty
    ensures Tracked(s, dirty, map[])
  {
  }

  /** The root pointer page and an empty leaf. */
  function NewFile(numSlots: nat): Store {
    map[0 := EmptyPage(RootPtr, numSlots), 1 := EmptyPage(Leaf, numSlots)]
  }

  lemma ConsistentNew(numSlots: nat)
    requires numSlots > 0
    ensures Consistent(NewFile(numSlots), 1, {1}, [], numSlots)
  {
    assert Partitioned([], 1, {1}, []);
  }

  lemma ConsistentPut(s: Store, numPages: nat, inUse: set<nat>, chain: seq<nat>, numSlots: nat, p: nat, page: Page)
    requires Consistent(s, numPages, inUse, chain, numSlots) && p in inUse
    ensures Consistent(s[p := page], numPages, inUse, chain, numSlots)
    ensures Bits(s[p := page], chain) == Bits(s, chain)
  {
    ChainedFrame(s, s[p := page], chain, numSlots);
  }

  lemma ConsistentRoot(s: Store, numPages: nat, inUse: set<nat>, chain: seq<nat>, numSlots: nat, root: nat, category: PageType)
    requires Consistent(s, numPages, inUse, chain, numSlots)
    ensures Consistent(s[0 := s[0].(root := root, rootCategory := category)], numPages, inUse, chain, numSlots)
  {
    ChainedFrame(s, s[0 := s[0].(root := root, rootCategory := category)], chain, numSlots);
  }

  /** The file grows by a page. */
  lemma ConsistentGrow(s: Store, numPages: nat, inUse: set<nat>, chain: seq<nat>, numSlots: nat, page: Page)
    requires Consistent(s, numPages, inUse, chain, numSlots) && AllSet(Bits(s, chain))
    ensures numPages + 1 !in inUse && numPages + 1 !in chain && numPages + 1 !in s
    ensures Consistent(s[numPages + 1 := page], numPages + 1, inUse + {numPages + 1}, chain, numSlots)
  {
    ChainedFrame(s, s[numPages + 1 := page], chain, numSlots);
    forall p: nat
      ensures Unused(Bits(s, chain), p) <==> 1 <= p <= numPages + 1 && p !in inUse + {numPages + 1} && p !in chain
    {
      assert Unused(Bits(s, chain), p) <==> 1 <= p <= numPages && p !in inUse && p !in chain;
    }
  }

  function Marked(page: Page, slot: nat, value: bool): Page
    requires page.HeaderPage? && slot < |page.used|
  {
    page.(used := page.used[slot := value])
  }

  lemma MarkChained(s: Store, chain: seq<nat>, numSlots: nat, i: nat, slot: nat, value: bool)
    requires Chained(s, chain, numSlots) && i < |chain| && slot < numSlots
    ensures FirstPage(i, numSlots) + slot < |Bits(s, chain)|
    ensures var s' := s[chain[i] := Marked(s[chain[i]], slot, value)];
            && Chained(s', chain, numSlots)
            && Bits(s', chain) == Bits(s, chain)[FirstPage(i, numSlots) + slot := value]
  {
    var s' := s[chain[i] := Marked(s[chain[i]], slot, value)];
    BitsMark(s, s', chain, numSlots, i, slot, value);
    forall j | 0 <= j < |chain|
      ensures ChainLink(s', chain, j)
    {
      assert ChainLink(s, chain, j);
    }
  }

  lemma ChainedAt(s: Store, chain: seq<nat>, numSlots: nat, i: nat)
    requires Chained(s, chain, numSlots) && i < |chain|
    ensures chain[i] in s && s[chain[i]].HeaderPage? && |s[chain[i]].used| == numSlots
  {
  }

  lemma ChainApart(bits: seq<bool>, numPages: nat, inUse: set<nat>, chain: seq<nat>, i: nat)
    requires Partitioned(bits, numPages, inUse, chain) && i < |chain|
    ensures chain[i] != 0 && chain[i] !in inUse && chain[i] <= numPages
  {
  }

  /** The first clear bit is set and its page handed out. */
  lemma ConsistentTake(s: Store, numPages: nat, inUse: set<nat>, chain: seq<nat>, numSlots: nat, i: nat, slot: nat)
    requires Consistent(s, numPages, inUse, chain, numSlots) && i < |chain|
    requires AllSet(Bits(s, chain[..i])) && Unused(UsedOf(s, chain[i]), slot)
    requires forall b :: 0 <= b < slot ==> UsedOf(s, chain[i])[b]
    ensures var p := FirstPage(i, numSlots) + slot;
            && chain[i] != 0 && chain[i] !in inUse
            && 1 <= p <= numPages && p !in inUse && p !in chain
            && (forall q :: Unused(Bits(s, chain), q) ==> p <= q)
            && Consistent(s[chain[i] := Marked(s[chain[i]], slot, true)], numPages, inUse + {p}, chain, numSlots)
  {
    hide FirstPage, Bits, AllSet, Chained, Partitioned;
    var p := FirstPage(i, numSlots) + slot;
    assert Chained(s, chain, numSlots);
    ChainedAt(s, chain, numSlots, i);
    ChainApart(Bits(s, chain), numPages, inUse, chain, i);
    BitsPrefix(s, chain, numSlots, i);
    BitsAt(s, chain, i);
    FirstUnused(Bits(s, chain), Bits(s, chain[..i]), UsedOf(s, chain[i]), Bits(s, chain[i + 1..]), slot);
    PartitionedTake(Bits(s, chain), numPages, inUse, chain, p);
    MarkChained(s, chain, numSlots, i, slot, true);
  }

  /** The bit of a page in use is cleared. */
  lemma ConsistentFree(s: Store, numPages: nat, inUse: set<nat>, chain: seq<nat>, numSlots: nat, i: nat, slot: nat)
    requires Consistent(s, numPages, inUse, chain, numSlots) && i < |chain| && slot < numSlots
    requires FirstPage(i, numSlots) + slot in inUse
    ensures chain[i] in s && s[chain[i]].HeaderPage? && slot < |s[chain[i]].used|
    ensures chain[i] !in inUse && chain[i] != 0 && 0 in s && s[0].RootPtrPage?
    ensures var p, s' := FirstPage(i, numSlots) + slot, s[chain[i] := Marked(s[chain[i]], slot, false)];
            && Consistent(s', numPages, inUse - {p}, chain, numSlots)
            && Unused(Bits(s', chain), p)
  {
    MarkChained(s, chain, numSlots, i, slot, false);
    PartitionedFree(Bits(s, chain), numPages, inUse, chain, FirstPage(i, numSlots) + slot);
  }

  /** A page in use becomes the last page of the header chain. */
  lemma ConsistentHeader(s: Store, numPages: nat, inUse: set<nat>, chain: seq<nat>, numSlots: nat, headerId: nat, prevId: nat)
    requires Consistent(s, numPages, inUse, chain, numSlots) && headerId in inUse
    requires prevId == (if chain == [] then 0 else chain[|chain| - 1])
    ensures prevId in s && headerId in s && prevId != headerId && prevId !in inUse
    ensures Consistent(WithHeader(s, numSlots, headerId, prevId), numPages, inUse - {headerId}, chain + [headerId], numSlots)
  {
    WithHeaderChained(s, chain, numSlots, headerId, prevId);
    PartitionedExtend(Bits(s, chain), seq(numSlots, _ => true), numPages, inUse, chain, headerId);
  }

  class PageStore {
    const numSlots: nat  // how many pages one header page accounts for

    var pages: Store     // what fetching a page number gives
    var numPages: nat    // how many pages the file has after the root pointer page
    var dirty: set<nat>  // the write set of the current operation

    ghost var inUse: set<nat>   // pages handed out and not freed
    ghost var chain: seq<nat>   // the header pages, in order
    ghost var base: Store       // the pages when the current operation started

    /** The file has no page yet. */
    ghost predicate Empty()
      reads this
    {
      numSlots > 0 && pages == map[] && numPages == 0
    }

    ghost predicate Valid()
      reads this
    {
      && Consistent(pages, numPages, inUse, chain, numSlots)
      && Tracked(pages, dirty, base)
    }

    constructor (numSlots: nat)
      requires numSlots > 0
      ensures Empty() && this.numSlots == numSlots
    {
      this.numSlots := numSlots;
      pages, numPages, dirty := map[], 0, {};
      inUse, chain, base := {}, [], map[];
    }

    lemma InPages()
      requires Valid()
      ensures 0 !in inUse && forall q :: q in inUse ==> q in pages
      ensures 0 in pages && pages[0].RootPtrPage?
    {
    }

    /** A new operation starts, with an empty write set. */
    method Begin()
      modifies this`dirty, this`base
      ensures dirty == {} && base == pages
      ensures old(Valid()) ==> Valid()
    {
      dirty, base := {}, pages;
    }

    /** getPage: fetches a page; a page fetched for writing joins the write set. */
    method GetPage(p: nat, perm: Permissions) returns (page: Page)
      requires Valid() && p in pages
      modifies this`dirty
      ensures Valid() && page == pages[p]
      ensures dirty == old(dirty) + (if perm == ReadWrite then {p} else {})
    {
      if p !in dirty && perm == ReadWrite {
        dirty := dirty + {p};
      }
      page := pages[p];
    }

    /** The change of a page object that was fetched for writing. */
    method Put(p: nat, page: Page)
      requires Valid() && p in inUse && p in dirty
      modifies this`pages
      ensures Valid() && pages == old(pages)[p := page]
    {
      ConsistentPut(pages, numPages, inUse, chain, numSlots, p, page);
      pages := pages[p := page];
    }

    /** setRootId on the root pointer page. */
    method SetRoot(root: nat, category: PageType)
      requires Valid() && 0 in dirty
      modifies this`pages
      ensures Valid()
      ensures pages == old(pages)[0 := old(pages[0]).(root := root, rootCategory := category)]
    {
      ConsistentRoot(pages, numPages, inUse, chain, numSlots, root, category);
      pages := pages[0 := pages[0].(root := root, rootCategory := category)];
    }

    /** getRootPtrPage: creates the root pointer page and an empty leaf, page 1, in an
        empty file. */
    method GetRootPtrPage() returns (page: Page)
      requires Empty() || Valid()
      modifies this
      ensures Valid() && page == pages[0] && dirty == old(dirty)
      ensures !old(Empty()) ==> unchanged(this)
      ensures old(Empty()) ==>
                && pages == NewFile(numSlots)
                && numPages == 1 && inUse == {1} && base == pages
    {
      if |pages| == 0 {
        ConsistentNew(numSlots);
        pages := NewFile(numSlots);
        numPages := 1;
        inUse, chain, base := {1}, [], pages;
      }
      page := GetPage(0, ReadOnly);
    }

    /** The walk of getEmptyPageNo along the header chain: the first header page with a
        clear bit, its place in the chain and the bit; headerId is 0 when there is none. */
    method FindEmptySlot() returns (headerId: nat, headerPageCount: nat, slot: int)
      requires Valid()
      modifies this`dirty
      ensures Valid() && dirty == old(dirty)
      ensures headerId != 0 ==> headerPageCount < |chain| && headerId == chain[headerPageCount]
      ensures headerId != 0 ==> 0 <= slot < numSlots && Unused(UsedOf(pages, headerId), slot)
      ensures headerId != 0 ==> forall i :: 0 <= i < slot ==> UsedOf(pages, headerId)[i]
      ensures headerId != 0 ==> AllSet(Bits(pages, chain[..headerPageCount]))
      ensures headerId == 0 ==> AllSet(Bits(pages, chain))
    {
      hide AllSet, Bits;
      NoBits(pages, chain);
      var rootPtr := GetPage(0, ReadOnly);
      headerId, headerPageCount, slot := rootPtr.header, 0, -1;
      if headerId != 0 {
        var headerPage := GetPage(headerId, ReadOnly);
        slot := GetEmptySlot(headerPage.used);
        while headerId != 0 && slot == -1
          modifies this`dirty
          invariant Valid() && dirty == old(dirty)
          invariant headerPageCount < |chain|
          invariant headerId != 0 ==> headerId == chain[headerPageCount] && headerPage == pages[headerId]
          invariant slot == -1 || (headerId != 0 && 0 <= slot < numSlots && !headerPage.used[slot])
          invariant slot >= 0 ==> forall i :: 0 <= i < slot ==> headerPage.used[i]
          invariant slot == -1 && headerId != 0 ==> AllSet(headerPage.used)
          invariant AllSet(Bits(pages, chain[..headerPageCount]))
          invariant headerId == 0 ==> AllSet(Bits(pages, chain))
          decreases |chain| - headerPageCount, headerId
        {
          BitsTake(pages, chain, headerPageCount);
          AllSetMore(Bits(pages, chain[..headerPageCount]), headerPage.used);
          assert ChainLink(pages, chain, headerPageCount);
          headerId := headerPage.next;
          if headerId != 0 {
            headerPage := GetPage(headerId, ReadOnly);
            headerPageCount := headerPageCount + 1;
            slot := GetEmptySlot(headerPage.used);
          } else {
            assert chain[..headerPageCount + 1] == chain;
          }
        }
      }
    }

    /** getEmptyPageNo: the first page whose bit is clear; when there is none the file
        grows by one page.  The page itself is not in the write set yet. */
    method GetEmptyPageNo() returns (emptyPageNo: nat)
      requires Valid()
      modifies this
      ensures Consistent(pages, numPages, inUse, chain, numSlots)
      ensures Tracked(pages, dirty + {emptyPageNo}, base)
      ensures emptyPageNo != 0 && emptyPageNo !in old(inUse)
      ensures inUse == old(inUse) + {emptyPageNo} && chain == old(chain) && base == old(base)
      ensures forall p :: p in old(inUse) ==> p in old(pages) && p in pages && pages[p] == old(pages)[p]
      ensures 0 in pages && pages[0] == old(pages)[0]
      ensures old(dirty) <= dirty && forall q :: q in dirty ==> q in old(dirty) || q in chain
      ensures forall p :: Unused(old(Bits(pages, chain)), p) ==> emptyPageNo <= p && numPages == old(numPages)
      ensures numPages == old(numPages) || (numPages == old(numPages) + 1 && emptyPageNo == numPages)
    {
      hide Consistent, Bits;
      InPages();
      var headerId, headerPageCount, slot := FindEmptySlot();
      if headerId != 0 {
        emptyPageNo := FirstPage(headerPageCount, numSlots) + slot;
        ConsistentTake(pages, numPages, inUse, chain, numSlots, headerPageCount, slot);
        dirty := dirty + {headerId};
        pages := pages[headerId := Marked(pages[headerId], slot, true)];
      } else {
        ConsistentGrow(pages, numPages, inUse, chain, numSlots, EmptyPage(Internal, numSlots));
        numPages := numPages + 1;
        emptyPageNo := numPages;
        pages := pages[emptyPageNo := EmptyPage(Internal, numSlots)];
      }
      inUse := inUse + {emptyPageNo};
    }

    /** getEmptyPage: a wiped page, fetched for writing. */
    method GetEmptyPage(category: PageType) returns (p: nat)
      requires Valid()
      modifies this
      ensures Valid()
      ensures p != 0 && p !in old(inUse) && p in pages && pages[p] == EmptyPage(category, numSlots)
      ensures inUse == old(inUse) + {p} && chain == old(chain) && base == old(base)
      ensures forall q :: q in old(inUse) ==> q in old(pages) && q in pages && pages[q] == old(pages)[q]
      ensures 0 in pages && pages[0] == old(pages)[0]
      ensures p in dirty && old(dirty) <= dirty
      ensures forall q :: q in dirty ==> q in old(dirty) || q == p || q in chain
      ensures forall q :: Unused(old(Bits(pages, chain)), q) ==> p <= q && numPages == old(numPages)
      ensures numPages == old(numPages) || (numPages == old(numPages) + 1 && p == numPages)
    {
      p := GetEmptyPageNo();
      ConsistentPut(pages, numPages, inUse, chain, numSlots, p, EmptyPage(category, numSlots));
      pages := pages[p := EmptyPage(category, numSlots)];
      dirty := dirty + {p};
    }

    /** A new header page, with every bit set, is put at the end of the chain: the root
        pointer page (page 0) or the last header page names it. */
    method AddHeaderPage(prevId: nat) returns (headerId: nat)
      requires Valid()
      requires prevId == if chain == [] then 0 else chain[|chain| - 1]
      modifies this
      ensures Valid()
      ensures headerId != 0 && chain == old(chain) + [headerId] && inUse == old(inUse) && base == old(base)
      ensures forall q :: q in inUse ==> q in old(pages) && q in pages && pages[q] == old(pages)[q]
      ensures 0 in pages && pages[0] == old(pages)[0].(header := pages[0].header)
      ensures old(dirty) <= dirty && forall q :: q in dirty ==> q in old(dirty) || q == 0 || q in chain
    {
      hide Consistent;
      dirty := dirty + {prevId};
      headerId := GetEmptyPage(Header);
      ConsistentHeader(pages, numPages, inUse, chain, numSlots, headerId, prevId);
      pages := WithHeader(pages, numSlots, headerId, prevId);
      inUse, chain := inUse - {headerId}, chain + [headerId];
    }

    /** The walk of setEmptyPage along the header chain, to the header page that holds
        the bit of a page; headerId is 0 when the chain is too short. */
    method FindHeaderPage(emptyPageNo: nat) returns (headerId: nat, prevId: nat, headerPageCount: nat)
      requires Valid()
      modifies this`dirty
      ensures Valid() && dirty == old(dirty)
      ensures headerPageCount <= |chain| && (headerId == 0 <==> headerPageCount == |chain|)
      ensures headerId == if headerPageCount < |chain| then chain[headerPageCount] else 0
      ensures prevId == if headerPageCount == 0 then 0 else chain[headerPageCount - 1]
      ensures FirstPage(headerPageCount, numSlots) <= emptyPageNo
      ensures headerId != 0 ==> emptyPageNo < FirstPage(headerPageCount, numSlots) + numSlots
    {
      var rootPtr := GetPage(0, ReadOnly);
      headerId, prevId, headerPageCount := rootPtr.header, 0, 0;
      while headerId != 0 && FirstPage(headerPageCount + 1, numSlots) <= emptyPageNo
        modifies this`dirty
        invariant Valid() && dirty == old(dirty)
        invariant headerPageCount <= |chain|
        invariant headerId == if headerPageCount < |chain| then chain[headerPageCount] else 0
        invariant prevId == if headerPageCount == 0 then 0 else chain[headerPageCount - 1]
        invariant FirstPage(headerPageCount, numSlots) <= emptyPageNo
        decreases |chain| - headerPageCount
      {
        assert ChainLink(pages, chain, headerPageCount);
        var headerPage := GetPage(headerId, ReadOnly);
        prevId := headerId;
        headerId := headerPage.next;
        headerPageCount := headerPageCount + 1;
      }
    }

    lemma ValidPages()
      requires Valid()
      ensures 0 in pages && pages[0].RootPtrPage? && numSlots > 0 && forall q :: q in inUse ==> q in pages
    {
    }

    /** The header page that holds the bit of a page in use; the chain is extended until
        there is one. */
    method CoverPage(emptyPageNo: nat) returns (headerId: nat, headerPageCount: nat)
      requires Valid() && emptyPageNo in inUse
      modifies this
      ensures Valid()
      ensures inUse == old(inUse) && base == old(base)
      ensures forall q :: q in inUse ==> q in old(pages) && q in pages && pages[q] == old(pages)[q]
      ensures 0 in pages && pages[0] == old(pages)[0].(header := pages[0].header)
      ensures old(dirty) <= dirty && forall q :: q in dirty ==> q in old(dirty) || q == 0 || q in chain
      ensures |old(chain)| <= |chain| && chain[..|old(chain)|] == old(chain)
      ensures |chain| == |old(chain)| || |chain| == headerPageCount + 1
      ensures headerPageCount < |chain| && headerId == chain[headerPageCount]
      ensures FirstPage(headerPageCount, numSlots) <= emptyPageNo < FirstPage(headerPageCount, numSlots) + numSlots
    {
      hide *;
      ValidPages();
      var prevId;
      headerId, prevId, headerPageCount := FindHeaderPage(emptyPageNo);
      while headerId == 0
        invariant Valid() && old(dirty) <= dirty && inUse == old(inUse) && base == old(base)
        invariant forall q :: q in dirty ==> q in old(dirty) || q == 0 || q in chain
        invariant |old(chain)| <= |chain| && chain[..|old(chain)|] == old(chain)
        invariant headerId != 0 ==> |chain| == |old(chain)| || |chain| == headerPageCount + 1
        invariant forall q :: q in inUse ==> q in old(pages) && q in pages && pages[q] == old(pages)[q]
        invariant 0 in pages && pages[0].RootPtrPage? && numSlots > 0
        invariant pages[0] == old(pages)[0].(header := pages[0].header)
        invariant headerId == 0 ==> headerPageCount == |chain|
        invariant headerId == 0 ==> prevId == if chain == [] then 0 else chain[|chain| - 1]
        invariant FirstPage(headerPageCount, numSlots) <= emptyPageNo
        invariant headerId != 0 ==> headerPageCount < |chain| && headerId == chain[headerPageCount]
        invariant headerId != 0 ==> emptyPageNo < FirstPage(headerPageCount, numSlots) + numSlots
        decreases headerId == 0, emptyPageNo - FirstPage(headerPageCount, numSlots)
      {
        headerId := AddHeaderPage(prevId);
        FirstPageNext(headerPageCount, numSlots);
        if FirstPage(headerPageCount + 1, numSlots) <= emptyPageNo {
          headerPageCount, prevId, headerId := headerPageCount + 1, headerId, 0;
        }
      }
    }

    /** setEmptyPage: clears the bit of a page in use, after extending the chain of
        header pages until it covers the page. */
    method SetEmptyPage(emptyPageNo: nat)
      requires Valid() && emptyPageNo in inUse
      modifies this
      ensures Valid()
      ensures inUse == old(inUse) - {emptyPageNo} && base == old(base)
      ensures forall q :: q in inUse ==> q in old(pages) && q in pages && pages[q] == old(pages)[q]
      ensures 0 in pages && pages[0] == old(pages)[0].(header := pages[0].header)
      ensures old(dirty) <= dirty && forall q :: q in dirty ==> q in old(dirty) || q == 0 || q in chain
      ensures |old(chain)| <= |chain| && chain[..|old(chain)|] == old(chain)
      ensures |chain| == |old(chain)| || FirstPage(|chain| - 1, numSlots) <= emptyPageNo
      ensures Unused(Bits(pages, chain), emptyPageNo)
    {
      hide Consistent, Bits, Unused, FirstPage;
      var headerId, headerPageCount := CoverPage(emptyPageNo);
      var emptySlot := emptyPageNo - FirstPage(headerPageCount, numSlots);
      ConsistentFree(pages, numPages, inUse, chain, numSlots, headerPageCount, emptySlot);
      dirty := dirty + {headerId};
      pages := pages[headerId := Marked(pages[headerId], emptySlot, false)];
      inUse := inUse - {emptyPageNo};
    }
  }
}
