/** The buffer pool: a write-back cache of a bounded number of pages, in front of a disk. */
module BufferPools {
  import opened Pages

  type Tid = nat

  /** A cached page, with the transaction that made it dirty. */
  datatype Frame<C> = Frame(content: C, dirty: Option<Tid>)

  type Frames<C> = map<PageId, Frame<C>>

  /** What reading a page gives: the cached content, else that on disk. */
  ghost function ViewOf<C>(pages: Frames<C>, disk: map<PageId, C>): map<PageId, C> {
    map pid | pid in pages.Keys + disk.Keys :: if pid in pages then pages[pid].content else disk[pid]
  }

  /** A cached page that is not dirty, and not in except, is as it is on disk. */
  ghost predicate CleanIsStored<C>(pages: Frames<C>, disk: map<PageId, C>, except: set<PageId>) {
    forall pid :: pid in pages && pages[pid].dirty == None && pid !in except ==>
      pid in disk && pages[pid].content == disk[pid]
  }

  /** Two views agree on every page that is not in except. */
  ghost predicate Agree<C(!new)>(a: map<PageId, C>, b: map<PageId, C>, except: set<PageId>) {
    forall p :: p !in except ==> (p in a <==> p in b) && (p in a && p in b ==> a[p] == b[p])
  }

  lemma AgreeTrans<C(!new)>(a: map<PageId, C>, b: map<PageId, C>, c: map<PageId, C>, except: set<PageId>)
    requires Agree(a, b, except) && Agree(b, c, except)
    ensures Agree(a, c, except)
  {
  }

  lemma AgreeSelf<C(!new)>(a: map<PageId, C>, except: set<PageId>)
    ensures Agree(a, a, except)
  {
  }

  lemma AgreeAt<C(!new)>(a: map<PageId, C>, b: map<PageId, C>, except: set<PageId>, pid: PageId)
    requires Agree(a, b, except) && pid !in except
    ensures pid in a <==> pid in b
    ensures pid in a ==> a[pid] == b[pid]
  {
  }

  lemma AgreeAll<C(!new)>(a: map<PageId, C>, b: map<PageId, C>)
    requires Agree(a, b, {})
    ensures a == b
  {
    assert forall p :: p in a <==> p in b;
  }

  /** A page that is written back if it is dirty, and dropped. */
  lemma Evicted<C(!new)>(pages: Frames<C>, disk: map<PageId, C>, pages': Frames<C>, disk': map<PageId, C>, pid: PageId, except: set<PageId>)
    requires CleanIsStored(pages, disk, except) && pid in pages && pages' == pages - {pid}
    requires disk' == if pages[pid].dirty.Some? then disk[pid := pages[pid].content] else disk
    ensures CleanIsStored(pages', disk', except) && Agree(ViewOf(pages', disk'), ViewOf(pages, disk), except)
  {
    assert pages'.Keys == pages.Keys - {pid};
  }

  lemma DropSame<C>(a: Frames<C>, b: Frames<C>, pid: PageId)
    requires a.Keys == b.Keys && forall p :: p in b && p != pid ==> b[p] == a[p]
    ensures b - {pid} == a - {pid}
  {
  }

  lemma DroppedCount<C>(pages: Frames<C>, pid: PageId)
    requires pid in pages
    ensures |pages - {pid}| == |pages| - 1 && (pages - {pid}).Keys <= pages.Keys
  {
    assert (pages - {pid}).Keys == pages.Keys - {pid};
    assert |pages - {pid}| == |(pages - {pid}).Keys| && |pages| == |pages.Keys|;
  }

  /** A page that is put into the cache, as dirty. */
  lemma Placed<C(!new)>(pages: Frames<C>, disk: map<PageId, C>, target: map<PageId, C>, pid: PageId, content: C, tid: Tid, except: set<PageId>)
    requires CleanIsStored(pages, disk, except + {pid}) && Agree(ViewOf(pages, disk), target, except + {pid})
    ensures var pages' := pages[pid := Frame(content, Some(tid))];
            && CleanIsStored(pages', disk, except)
            && Agree(ViewOf(pages', disk), target[pid := content], except)
  {
  }

  /** What a view becomes when pages get new contents. */
  ghost function Overlay<C>(view: map<PageId, C>, changed: seq<(PageId, C)>): map<PageId, C> {
    if changed == [] then view
    else Overlay(view, changed[..|changed| - 1])[changed[|changed| - 1].0 := changed[|changed| - 1].1]
  }

  ghost function Ids<C>(changed: seq<(PageId, C)>): set<PageId> {
    set i | 0 <= i < |changed| :: changed[i].0
  }

  class BufferPool<C(!new)> {
    const numPages: nat
    var pages: Frames<C>
    var disk: map<PageId, C>   // what readPage reads and writePage writes

    ghost function View(): map<PageId, C>
      reads this
    {
      ViewOf(pages, disk)
    }

    ghost predicate Valid()
      reads this
    {
      Busy({})
    }

    /** What holds while a file operation goes on that holds some page objects. */
    ghost predicate Busy(held: set<PageId>)
      reads this
    {
      |pages| <= numPages && numPages >= 1 && CleanIsStored(pages, disk, held)
    }

    constructor (numPages: nat, disk: map<PageId, C>)
      requires numPages >= 1
      ensures Valid() && this.numPages == numPages && View() == disk
    {
      this.numPages := numPages;
      pages := map[];
      this.disk := disk;
    }

    /** flushPage: writes a cached dirty page back. */
    method FlushPage(pid: PageId)
      modifies this
      ensures pages.Keys == old(pages).Keys
      ensures forall p :: p in pages && p != pid ==> pages[p] == old(pages)[p]
      ensures pid in pages ==> pages[pid] == Frame(old(pages)[pid].content, None)
      ensures disk == if pid in old(pages) && old(pages)[pid].dirty.Some? then old(disk)[pid := old(pages)[pid].content] else old(disk)
      ensures View() == old(View())
      ensures forall except :: old(CleanIsStored(pages, disk, except)) ==> CleanIsStored(pages, disk, except)
    {
      if pid in pages && pages[pid].dirty.Some? {
        pages := pages[pid := Frame(pages[pid].content, None)];
        disk := disk[pid := pages[pid].content];
      }
    }

    /** evictPage: some page, whichever comes first, is written back and dropped.  The view
        stays the same, but for pages in except that are not as they are on disk. */
    method EvictPage(ghost except: set<PageId>)
      requires CleanIsStored(pages, disk, except)
      modifies this
      ensures CleanIsStored(pages, disk, except) && Agree(View(), old(View()), except)
      ensures old(pages) == map[] ==> pages == old(pages) && disk == old(disk)
      ensures old(pages) != map[] ==> |pages| == |old(pages)| - 1
      ensures old(pages) != map[] ==>
                (exists p :: p in old(pages) && pages == old(pages) - {p}
                   && disk == if old(pages)[p].dirty.Some? then old(disk)[p := old(pages)[p].content] else old(disk))
    {
      if |pages| > 0 {
        hide CleanIsStored, Agree, ViewOf;
        ghost var before, stored := pages, disk;
        var pid :| pid in pages;
        FlushPage(pid);
        DropSame(before, pages, pid);
        pages := pages - {pid};
        DroppedCount(before, pid);
        Evicted(before, stored, pages, disk, pid, except);
      }
    }

    /** getPage: the page as the view has it, read into the cache when it is not there.  A
        file operation that holds page objects it may have changed in place, held, calls it
        for pages it does not hold. */
    method GetPage(pid: PageId, ghost held: set<PageId>) returns (page: C)
      requires Busy(held) && pid in View() && pid !in held
      modifies this
      ensures Busy(held) && Agree(View(), old(View()), held) && pid in View() && page == View()[pid] && pid in pages
      ensures held == {} ==> Valid() && View() == old(View())
      ensures Unmarked(pages, old(pages), {})
      ensures pid in old(pages) ==> pages == old(pages) && disk == old(disk)
      ensures pid !in old(pages) && |old(pages)| < numPages ==> pages == old(pages)[pid := Frame(page, None)] && disk == old(disk)
      ensures pid !in old(pages) && |old(pages)| == numPages ==>
                (exists p :: p in old(pages) && pages == (old(pages) - {p})[pid := Frame(page, None)]
                   && disk == if old(pages)[p].dirty.Some? then old(disk)[p := old(pages)[p].content] else old(disk))
    {
      hide CleanIsStored, ViewOf, Agree;
      ghost var view := View();
      AgreeSelf(view, held);
      ViewAt(pages, disk, pid);
      if pid !in pages {
        if |pages| >= numPages {
          EvictPage(held);
          AgreeAt(View(), view, held, pid);
          ViewAt(pages, disk, pid);
        }
        CachedAsStored(pages, disk, pid, held);
        PutCount(pages, pid, Frame(disk[pid], None));
        pages := pages[pid := Frame(disk[pid], None)];
        ViewAt(pages, disk, pid);
      }
      page := pages[pid].content;
      if held == {} {
        AgreeAll(View(), view);
      }
    }

    /** A file operation changes a page object it holds; the cache sees it if it still has the
        object. */
    method ChangeInPlace(pid: PageId, content: C, ghost held: set<PageId>)
      requires Busy(held) && pid in held
      modifies this`pages
      ensures Busy(held) && Agree(View(), old(View()), held)
      ensures pages == if pid in old(pages) then old(pages)[pid := Frame(content, old(pages)[pid].dirty)] else old(pages)
      ensures Unmarked(pages, old(pages), held)
    {
      if pid in pages {
        ghost var before := pages;
        pages := pages[pid := pages[pid].(content := content)];
        KeysCount(before, pages);
      }
    }

    /** flushAllPages. */
    method FlushAllPages()
      requires Valid()
      modifies this
      ensures Valid() && View() == old(View())
      ensures forall p :: p in pages ==> pages[p].dirty == None && p in disk && disk[p] == View()[p]
      ensures View() == disk
    {
      hide CleanIsStored, ViewOf;
      var todo := pages.Keys;
      while todo != {}
        invariant Valid() && View() == old(View()) && todo <= pages.Keys
        invariant forall p :: p in pages && p !in todo ==> pages[p].dirty == None
        decreases |todo|
      {
        var pid :| pid in todo;
        ghost var before := pages;
        FlushPage(pid);
        KeysCount(before, pages);
        todo := todo - {pid};
      }
      CleanView(pages, disk);
    }

    /** flushPages: the pages a transaction made dirty are written back, the others are as
        they were. */
    method FlushPages(tid: Tid)
      requires Valid()
      modifies this
      ensures Valid() && View() == old(View()) && pages.Keys == old(pages).Keys
      ensures forall p :: p in pages && old(pages)[p].dirty == Some(tid) ==>
                pages[p] == Frame(old(pages)[p].content, None) && p in disk && disk[p] == old(pages)[p].content
      ensures forall p :: !(p in old(pages) && old(pages)[p].dirty == Some(tid)) ==>
                (p in disk <==> p in old(disk)) && (p in disk ==> disk[p] == old(disk)[p])
      ensures forall p :: p in pages && old(pages)[p].dirty != Some(tid) ==> pages[p] == old(pages)[p]
    {
      hide CleanIsStored, ViewOf;
      var todo := pages.Keys;
      while todo != {}
        invariant Valid() && View() == old(View()) && todo <= pages.Keys == old(pages).Keys
        invariant forall p :: p in todo ==> pages[p] == old(pages)[p]
        invariant forall p :: p in pages && p !in todo ==>
                    if old(pages)[p].dirty == Some(tid) then pages[p] == Frame(old(pages)[p].content, None) && p in disk && disk[p] == old(pages)[p].content
                    else pages[p] == old(pages)[p]
        invariant forall p :: !(p in old(pages) && old(pages)[p].dirty == Some(tid)) ==>
                    (p in disk <==> p in old(disk)) && (p in disk ==> disk[p] == old(disk)[p])
        decreases |todo|
      {
        var pid :| pid in todo;
        if pages[pid].dirty == Some(tid) {
          ghost var before := pages;
          FlushPage(pid);
          KeysCount(before, pages);
        }
        todo := todo - {pid};
      }
    }

    /** discardPage: the cached page is dropped, what is on disk counts again. */
    method DiscardPage(pid: PageId, ghost held: set<PageId>)
      requires Busy(held)
      modifies this
      ensures Busy(held) && pages == old(pages) - {pid} && disk == old(disk) && Agree(View(), old(View()), held + {pid})
      ensures pid in disk ==> pid in View() && View()[pid] == disk[pid]
    {
      if pid in pages {
        ghost var before := pages;
        pages := pages - {pid};
        assert pages.Keys == before.Keys - {pid};
        DroppedCount(before, pid);
      }
    }

    /** The end of insertTuple, after the file operation: before is the view when it began,
        and changed are the pages it returned.  The view changes in those pages and in no
        other, even when one of them is evicted before it is marked dirty. */
    method InsertTuple(tid: Tid, changed: seq<(PageId, C)>, ghost before: map<PageId, C>)
      requires Busy(Ids(changed)) && Agree(View(), before, Ids(changed))
      modifies this
      ensures Valid() && View() == Overlay(before, changed)
      ensures forall i :: 0 <= i < |changed| && (forall j :: i < j < |changed| ==> changed[j].0 != changed[i].0) ==>
                if changed[i].0 in pages then pages[changed[i].0] == Frame(changed[i].1, Some(tid))
                else changed[i].0 in disk && disk[changed[i].0] == changed[i].1
      ensures forall p :: p in pages && (forall i :: 0 <= i < |changed| ==> changed[i].0 != p) ==> p in old(pages) && pages[p] == old(pages)[p]
      ensures |old(pages).Keys + Ids(changed)| <= numPages ==> pages.Keys == old(pages).Keys + Ids(changed) && disk == old(disk)
    {
      hide CleanIsStored, Agree, ViewOf, Overlay, Ids, Owned;
      assert changed[0..] == changed && changed[..0] == [];
      OverlayNone(before);
      NoIds(changed[..0]);
      OwnedNone(pages, before, tid);
      ghost var fits := |pages.Keys + Ids(changed)| <= numPages;
      var i := 0;
      while i < |changed|
        invariant 0 <= i <= |changed| && Busy(Ids(changed[i..]))
        invariant Agree(View(), Overlay(before, changed[..i]), Ids(changed[i..]))
        invariant Owned(pages, old(pages), Overlay(before, changed[..i]), Ids(changed[..i]), tid)
        invariant fits ==> pages.Keys == old(pages).Keys + Ids(changed[..i]) && disk == old(disk)
      {
        var pid, content := changed[i].0, changed[i].1;
        if |pages| >= numPages && pid !in pages {
          if fits {
            TooMany(pages, old(pages).Keys, changed, i);
          }
          ghost var unevicted, owned := View(), pages;
          EvictPage(Ids(changed[i..]));
          AgreeTrans(View(), unevicted, Overlay(before, changed[..i]), Ids(changed[i..]));
          OwnedStill(owned, pages, old(pages), Overlay(before, changed[..i]), Ids(changed[..i]), tid);
        }
        PutOne(pages, disk, old(pages), before, changed, i, tid);
        PutCount(pages, pid, Frame(content, Some(tid)));
        pages := pages[pid := Frame(content, Some(tid))];
        i := i + 1;
      }
      assert changed[..i] == changed && changed[i..] == [];
      NoIds(changed[i..]);
      AgreeAll(View(), Overlay(before, changed));
      OwnedEach(pages, disk, old(pages), before, changed, tid);
    }
  }

  /** Of the changed pages, those in the cache have the content of the view and are dirty for
      the transaction; the frames of the others are as they were. */
  ghost predicate Owned<C(!new)>(pages: Frames<C>, before: Frames<C>, view: map<PageId, C>, ids: set<PageId>, tid: Tid) {
    forall p :: p in pages ==>
      if p in ids then p in view && pages[p] == Frame(view[p], Some(tid)) else p in before && pages[p] == before[p]
  }

  lemma OwnedNone<C(!new)>(pages: Frames<C>, view: map<PageId, C>, tid: Tid)
    ensures Owned(pages, pages, view, {}, tid)
  {
  }

  lemma OwnedStill<C(!new)>(pages: Frames<C>, pages': Frames<C>, before: Frames<C>, view: map<PageId, C>, ids: set<PageId>, tid: Tid)
    requires Owned(pages, before, view, ids, tid) && forall p :: p in pages' ==> p in pages && pages'[p] == pages[p]
    ensures Owned(pages', before, view, ids, tid)
  {
  }

  lemma OwnedNext<C(!new)>(pages: Frames<C>, before: Frames<C>, view: map<PageId, C>, ids: set<PageId>, tid: Tid, pid: PageId, content: C)
    requires Owned(pages, before, view, ids, tid)
    ensures Owned(pages[pid := Frame(content, Some(tid))], before, view[pid := content], ids + {pid}, tid)
  {
  }

  /** One more returned page is put into the pool. */
  lemma PutOne<C(!new)>(pages: Frames<C>, disk: map<PageId, C>, frames: Frames<C>, before: map<PageId, C>, changed: seq<(PageId, C)>,
                        i: nat, tid: Tid)
    requires i < |changed| && CleanIsStored(pages, disk, Ids(changed[i..]))
    requires Agree(ViewOf(pages, disk), Overlay(before, changed[..i]), Ids(changed[i..]))
    requires Owned(pages, frames, Overlay(before, changed[..i]), Ids(changed[..i]), tid)
    ensures var pages' := pages[changed[i].0 := Frame(changed[i].1, Some(tid))];
            && CleanIsStored(pages', disk, Ids(changed[i + 1..]))
            && Agree(ViewOf(pages', disk), Overlay(before, changed[..i + 1]), Ids(changed[i + 1..]))
            && Owned(pages', frames, Overlay(before, changed[..i + 1]), Ids(changed[..i + 1]), tid)
    ensures Ids(changed[..i + 1]) == Ids(changed[..i]) + {changed[i].0}
  {
    hide CleanIsStored, Agree, ViewOf, Overlay, Ids, Owned;
    var pid, content, target := changed[i].0, changed[i].1, Overlay(before, changed[..i]);
    OverlayNext(before, changed, i);
    NextId(changed, i);
    Placed(pages, disk, target, pid, content, tid, Ids(changed[i + 1..]));
    OwnedNext(pages, frames, target, Ids(changed[..i]), tid, pid, content);
  }

  lemma OwnedEach<C(!new)>(pages: Frames<C>, disk: map<PageId, C>, before: Frames<C>, view: map<PageId, C>, changed: seq<(PageId, C)>, tid: Tid)
    requires Owned(pages, before, Overlay(view, changed), Ids(changed), tid) && ViewOf(pages, disk) == Overlay(view, changed)
    ensures forall i :: 0 <= i < |changed| && (forall j :: i < j < |changed| ==> changed[j].0 != changed[i].0) ==>
              if changed[i].0 in pages then pages[changed[i].0] == Frame(changed[i].1, Some(tid))
              else changed[i].0 in disk && disk[changed[i].0] == changed[i].1
    ensures forall p :: p in pages && (forall i :: 0 <= i < |changed| ==> changed[i].0 != p) ==> p in before && pages[p] == before[p]
  {
    hide Overlay, ViewOf;
    forall i | 0 <= i < |changed| && (forall j :: i < j < |changed| ==> changed[j].0 != changed[i].0)
      ensures if changed[i].0 in pages then pages[changed[i].0] == Frame(changed[i].1, Some(tid))
              else changed[i].0 in disk && disk[changed[i].0] == changed[i].1
    {
      OverlayLast(view, changed, i);
      ViewAt(pages, disk, changed[i].0);
    }
  }

  /** The last content given for a page is the one it has. */
  lemma {:induction false} OverlayLast<C>(view: map<PageId, C>, changed: seq<(PageId, C)>, i: nat)
    requires i < |changed| && forall j :: i < j < |changed| ==> changed[j].0 != changed[i].0
    ensures changed[i].0 in Overlay(view, changed) && Overlay(view, changed)[changed[i].0] == changed[i].1
    decreases |changed|
  {
    var n := |changed| - 1;
    if i < n {
      OverlayLast(view, changed[..n], i);
    }
  }

  /** A full cache leaves no room for another page. */
  lemma TooMany<C>(pages: Frames<C>, before: set<PageId>, changed: seq<(PageId, C)>, i: nat)
    requires i < |changed| && pages.Keys == before + Ids(changed[..i]) && changed[i].0 !in pages
    ensures |pages| + 1 <= |before + Ids(changed)|
  {
    hide Ids;
    var more := pages.Keys + {changed[i].0};
    IdsInside(changed, i);
    Subset(more, before + Ids(changed));
    assert |more| == |pages.Keys| + 1 && |pages| == |pages.Keys|;
  }

  lemma IdsInside<C>(changed: seq<(PageId, C)>, i: nat)
    requires i < |changed|
    ensures Ids(changed[..i]) <= Ids(changed) && changed[i].0 in Ids(changed)
  {
  }

  lemma Subset(a: set<PageId>, b: set<PageId>)
    requires a <= b
    ensures |a| <= |b|
  {
    assert b == a + (b - a);
  }

  /** A file operation as the pool sees it: it fetches a page for reading, fetches one to
      change, changes one it holds, writes a page the file did not have to disk
      (getRootPtrPage), or writes an empty page to disk and fetches it to change
      (getEmptyPage). */
  datatype Step<C> = Read(pid: PageId)
                   | Hold(pid: PageId)
                   | Change(pid: PageId, content: C)
                   | Create(pid: PageId, content: C)
                   | Empty(pid: PageId, content: C)

  function Holds<C>(step: Step<C>): set<PageId> {
    if step.Hold? || step.Empty? then {step.pid} else {}
  }

  function Touches<C>(step: Step<C>): set<PageId> {
    if step.Hold? || step.Empty? || step.Create? then {step.pid} else {}
  }

  /** The pages an operation holds after some steps. */
  function HeldAfter<C>(steps: seq<Step<C>>): set<PageId> {
    if steps == [] then {} else HeldAfter(steps[..|steps| - 1]) + Holds(steps[|steps| - 1])
  }

  /** The pages it holds or has written. */
  function TouchedAfter<C>(steps: seq<Step<C>>): set<PageId> {
    if steps == [] then {} else TouchedAfter(steps[..|steps| - 1]) + Touches(steps[|steps| - 1])
  }

  /** An operation fetches pages that exist and that it does not hold, changes only pages it
      holds, and creates only pages that did not exist; any page can become an empty one. */
  ghost predicate StepFits<C>(step: Step<C>, view: map<PageId, C>, held: set<PageId>, touched: set<PageId>) {
    match step
    case Read(pid) => (pid in view || pid in touched) && pid !in held
    case Hold(pid) => (pid in view || pid in touched) && pid !in held
    case Change(pid, _) => pid in held
    case Create(pid, _) => pid !in view && pid !in touched
    case Empty(_, _) => true
  }

  ghost predicate WellFormed<C>(steps: seq<Step<C>>, view: map<PageId, C>) {
    forall i :: 0 <= i < |steps| ==> StepFits(steps[i], view, HeldAfter(steps[..i]), TouchedAfter(steps[..i]))
  }

  /** While an operation goes on, the pages it has not touched are as they were, and those it
      has written can be fetched. */
  ghost predicate Since<C(!new)>(now: map<PageId, C>, view: map<PageId, C>, held: set<PageId>, touched: set<PageId>) {
    && held <= touched && Agree(now, view, touched)
    && forall p :: p in touched && p !in held ==> p in now
  }

  /** getEmptyPage: an empty page is written to disk, a copy in the pool is dropped, and the
      page is fetched, whatever it held before. */
  method EmptyPage<C(!new)>(pool: BufferPool<C>, pid: PageId, content: C, ghost held: set<PageId>) returns (page: C)
    requires pool.Busy(held)
    modifies pool
    ensures pool.Busy(held + {pid}) && Agree(pool.View(), old(pool.View()), held + {pid})
    ensures page == content && pid in pool.pages && Unmarked(pool.pages, old(pool.pages), held + {pid})
  {
    hide CleanIsStored, ViewOf, Agree;
    ghost var view, others := pool.View(), held - {pid};
    WrittenBeneath(pool.pages, pool.disk, pid, content, held);
    pool.disk := pool.disk[pid := content];
    ghost var written := pool.View();
    pool.DiscardPage(pid, held + {pid});
    AgreeTrans(pool.View(), written, view, held + {pid} + {pid});
    NotCached(pool.pages, pool.disk, pid, held + {pid});
    assert held + {pid} - {pid} == others;
    ghost var dropped := pool.View();
    page := pool.GetPage(pid, others);
    AgreeAt(pool.View(), dropped, others, pid);
    StillHeld(pool.pages, pool.disk, pool.View(), dropped, others, held + {pid});
    AgreeTrans(pool.View(), dropped, view, held + {pid});
  }

  /** No frame became dirty, and those of pages not in except are as they were or clean. */
  ghost predicate Unmarked<C(!new)>(pages: Frames<C>, before: Frames<C>, except: set<PageId>) {
    forall p :: p in pages ==>
      pages[p].dirty == None || (p in before && pages[p].dirty == before[p].dirty && (p !in except ==> pages[p] == before[p]))
  }

  lemma UnmarkedTrans<C(!new)>(a: Frames<C>, b: Frames<C>, c: Frames<C>, x: set<PageId>, y: set<PageId>)
    requires Unmarked(b, a, x) && Unmarked(c, b, y) && x <= y
    ensures Unmarked(c, a, y)
  {
  }

  lemma UnmarkedMore<C(!new)>(a: Frames<C>, b: Frames<C>, x: set<PageId>, y: set<PageId>)
    requires Unmarked(b, a, x) && x <= y
    ensures Unmarked(b, a, y)
  {
  }

  lemma UnmarkedSelf<C(!new)>(a: Frames<C>, x: set<PageId>)
    ensures Unmarked(a, a, x)
  {
  }

  /** One step of a file operation, with whatever is evicted by it. */
  method TakeStep<C(!new)>(pool: BufferPool<C>, step: Step<C>, ghost view: map<PageId, C>, ghost held: set<PageId>, ghost touched: set<PageId>)
    requires pool.Busy(held) && Since(pool.View(), view, held, touched) && StepFits(step, view, held, touched)
    modifies pool
    ensures pool.Busy(held + Holds(step)) && Since(pool.View(), view, held + Holds(step), touched + Touches(step))
    ensures Unmarked(pool.pages, old(pool.pages), held + Holds(step))
  {
    hide CleanIsStored, Agree, ViewOf, Since, Unmarked;
    ghost var now, cached := pool.View(), pool.pages;
    assert held + {} == held;
    UnmarkedSelf(cached, held);
    match step
    case Change(pid, content) =>
      pool.ChangeInPlace(pid, content, held);
      SinceNext(pool.View(), now, view, held, touched, step);
    case Read(pid) =>
      SinceAt(now, view, held, touched, pid);
      var page := pool.GetPage(pid, held);
      UnmarkedMore(cached, pool.pages, {}, held);
      SinceNext(pool.View(), now, view, held, touched, step);
    case Hold(pid) =>
      SinceAt(now, view, held, touched, pid);
      var page := pool.GetPage(pid, held);
      UnmarkedMore(cached, pool.pages, {}, held + {pid});
      StillHeld(pool.pages, pool.disk, pool.View(), now, held, held + {pid});
      SinceNext(pool.View(), now, view, held, touched, step);
    case Create(pid, content) =>
      SinceNot(now, view, held, touched, pid);
      Created(pool.pages, pool.disk, pid, content, held);
      pool.disk := pool.disk[pid := content];
      SinceNext(pool.View(), now, view, held, touched, step);
    case Empty(pid, content) =>
      var page := EmptyPage(pool, pid, content, held);
      SinceNext(pool.View(), now, view, held, touched, step);
  }

  /** insertTuple as a whole: the steps of the file operation, with whatever is evicted
      during them, and then the pages it returns, which include all that it held. */
  method WholeInsert<C(!new)>(pool: BufferPool<C>, tid: Tid, steps: seq<Step<C>>, changed: seq<(PageId, C)>)
    requires pool.Valid() && WellFormed(steps, pool.View())
    requires HeldAfter(steps) == TouchedAfter(steps) == Ids(changed)
    modifies pool
    ensures pool.Valid() && pool.View() == Overlay(old(pool.View()), changed)
    ensures forall i :: 0 <= i < |changed| && (forall j :: i < j < |changed| ==> changed[j].0 != changed[i].0) ==>
              if changed[i].0 in pool.pages then pool.pages[changed[i].0] == Frame(changed[i].1, Some(tid))
              else changed[i].0 in pool.disk && pool.disk[changed[i].0] == changed[i].1
    ensures forall p :: p in pool.pages && (forall i :: 0 <= i < |changed| ==> changed[i].0 != p) ==>
              pool.pages[p].dirty == None || (p in old(pool.pages) && pool.pages[p] == old(pool.pages)[p])
  {
    hide CleanIsStored, Agree, ViewOf, Overlay, Ids, HeldAfter, TouchedAfter, Since, Holds, Touches, StepFits, Unmarked;
    ghost var view := pool.View();
    NothingHeld(view);
    UnmarkedSelf(pool.pages, {});
    assert steps[..0] == [];
    for i := 0 to |steps|
      invariant pool.Busy(HeldAfter(steps[..i])) && Since(pool.View(), view, HeldAfter(steps[..i]), TouchedAfter(steps[..i]))
      invariant Unmarked(pool.pages, old(pool.pages), HeldAfter(steps[..i]))
    {
      HeldNext(steps, i);
      ghost var cached := pool.pages;
      TakeStep(pool, steps[i], view, HeldAfter(steps[..i]), TouchedAfter(steps[..i]));
      UnmarkedTrans(old(pool.pages), cached, pool.pages, HeldAfter(steps[..i]), HeldAfter(steps[..i + 1]));
    }
    assert steps[..|steps|] == steps;
    SinceAgrees(pool.View(), view, HeldAfter(steps), TouchedAfter(steps));
    UnmarkedFrames(pool.pages, old(pool.pages), changed);
    pool.InsertTuple(tid, changed, view);
  }

  lemma UnmarkedFrames<C(!new)>(pages: Frames<C>, before: Frames<C>, changed: seq<(PageId, C)>)
    requires Unmarked(pages, before, Ids(changed))
    ensures forall p :: p in pages && (forall i :: 0 <= i < |changed| ==> changed[i].0 != p) ==>
              pages[p].dirty == None || (p in before && pages[p] == before[p])
  {
  }

  lemma NothingHeld<C(!new)>(view: map<PageId, C>)
    ensures HeldAfter<C>([]) == {} && TouchedAfter<C>([]) == {} && Since(view, view, {}, {})
  {
  }

  lemma HeldNext<C>(steps: seq<Step<C>>, i: nat)
    requires i < |steps|
    ensures HeldAfter(steps[..i + 1]) == HeldAfter(steps[..i]) + Holds(steps[i])
    ensures TouchedAfter(steps[..i + 1]) == TouchedAfter(steps[..i]) + Touches(steps[i])
  {
    assert steps[..i + 1][..i] == steps[..i];
  }

  lemma SinceAgrees<C(!new)>(now: map<PageId, C>, view: map<PageId, C>, held: set<PageId>, touched: set<PageId>)
    requires Since(now, view, held, touched)
    ensures Agree(now, view, touched)
  {
  }

  /** A page that an operation fetches is there, */
  lemma SinceAt<C(!new)>(now: map<PageId, C>, view: map<PageId, C>, held: set<PageId>, touched: set<PageId>, pid: PageId)
    requires Since(now, view, held, touched) && (pid in view || pid in touched) && pid !in held
    ensures pid in now
  {
  }

  /** and one that it creates is not. */
  lemma SinceNot<C(!new)>(now: map<PageId, C>, view: map<PageId, C>, held: set<PageId>, touched: set<PageId>, pid: PageId)
    requires Since(now, view, held, touched) && pid !in view && pid !in touched
    ensures pid !in now
  {
  }

  lemma SinceNext<C(!new)>(next: map<PageId, C>, now: map<PageId, C>, view: map<PageId, C>, held: set<PageId>, touched: set<PageId>, step: Step<C>)
    requires Since(now, view, held, touched) && Agree(next, now, held + Touches(step))
    requires step.Create? ==> step.pid in next
    ensures Since(next, view, held + Holds(step), touched + Touches(step))
  {
  }

  /** Holding more pages asks less of the cache. */
  lemma StillHeld<C(!new)>(pages: Frames<C>, disk: map<PageId, C>, now: map<PageId, C>, view: map<PageId, C>, held: set<PageId>, more: set<PageId>)
    requires CleanIsStored(pages, disk, held) && Agree(now, view, held) && held <= more
    ensures CleanIsStored(pages, disk, more) && Agree(now, view, more)
  {
  }

  /** A page written to disk past the pool. */
  lemma WrittenBeneath<C(!new)>(pages: Frames<C>, disk: map<PageId, C>, pid: PageId, content: C, held: set<PageId>)
    requires CleanIsStored(pages, disk, held)
    ensures CleanIsStored(pages, disk[pid := content], held + {pid})
    ensures Agree(ViewOf(pages, disk[pid := content]), ViewOf(pages, disk), held + {pid})
  {
  }

  lemma Created<C(!new)>(pages: Frames<C>, disk: map<PageId, C>, pid: PageId, content: C, held: set<PageId>)
    requires CleanIsStored(pages, disk, held) && pid !in ViewOf(pages, disk)
    ensures CleanIsStored(pages, disk[pid := content], held) && pid in ViewOf(pages, disk[pid := content])
    ensures Agree(ViewOf(pages, disk[pid := content]), ViewOf(pages, disk), held + {pid})
  {
  }

  /** A page that is not cached need not be excepted. */
  lemma NotCached<C>(pages: Frames<C>, disk: map<PageId, C>, pid: PageId, held: set<PageId>)
    requires CleanIsStored(pages, disk, held) && pid !in pages
    ensures CleanIsStored(pages, disk, held - {pid})
  {
  }

  lemma KeysCount<C>(a: Frames<C>, b: Frames<C>)
    requires a.Keys == b.Keys
    ensures |a| == |b|
  {
    assert |a| == |a.Keys| && |b| == |b.Keys|;
  }

  /** When no cached page is dirty the view is the disk. */
  lemma CleanView<C>(pages: Frames<C>, disk: map<PageId, C>)
    requires CleanIsStored(pages, disk, {}) && forall p :: p in pages ==> pages[p].dirty == None
    ensures ViewOf(pages, disk) == disk && forall p :: p in pages ==> p in disk
  {
  }

  lemma ViewAt<C>(pages: Frames<C>, disk: map<PageId, C>, pid: PageId)
    requires pid in ViewOf(pages, disk)
    ensures pid in pages ==> ViewOf(pages, disk)[pid] == pages[pid].content
    ensures pid !in pages ==> pid in disk && ViewOf(pages, disk)[pid] == disk[pid]
  {
  }

  /** Caching a page as it is on disk. */
  lemma CachedAsStored<C>(pages: Frames<C>, disk: map<PageId, C>, pid: PageId, held: set<PageId>)
    requires pid !in pages && pid in disk && CleanIsStored(pages, disk, held)
    ensures var pages' := pages[pid := Frame(disk[pid], None)];
            CleanIsStored(pages', disk, held) && ViewOf(pages', disk) == ViewOf(pages, disk)
  {
  }

  lemma PutCount<C>(pages: Frames<C>, pid: PageId, frame: Frame<C>)
    ensures |pages[pid := frame]| == |pages| + (if pid in pages then 0 else 1)
  {
    assert pages[pid := frame].Keys == pages.Keys + {pid};
    assert |pages[pid := frame]| == |pages[pid := frame].Keys| && |pages| == |pages.Keys|;
  }

  lemma NextId<C>(changed: seq<(PageId, C)>, i: nat)
    requires i < |changed|
    ensures Ids(changed[i..]) == Ids(changed[i + 1..]) + {changed[i].0}
    ensures Ids(changed[..i + 1]) == Ids(changed[..i]) + {changed[i].0}
  {
    var rest, more := changed[i..], changed[i + 1..];
    assert rest[0] == changed[i];
    assert forall j :: 0 <= j < |more| ==> rest[j + 1] == more[j];
    forall p | p in Ids(rest)
      ensures p in Ids(more) + {changed[i].0}
    {
      var j :| 0 <= j < |rest| && rest[j].0 == p;
      assert j > 0 ==> more[j - 1].0 == p;
    }
    forall p | p in Ids(more)
      ensures p in Ids(rest)
    {
      var j :| 0 <= j < |more| && more[j].0 == p;
      assert rest[j + 1].0 == p;
    }
  }

  lemma NoIds<C>(changed: seq<(PageId, C)>)
    requires changed == []
    ensures Ids(changed) == {}
  {
  }

  lemma OverlayNext<C>(view: map<PageId, C>, changed: seq<(PageId, C)>, i: nat)
    requires i < |changed|
    ensures Overlay(view, changed[..i + 1]) == Overlay(view, changed[..i])[changed[i].0 := changed[i].1]
  {
    assert changed[..i + 1][..i] == changed[..i];
  }

  lemma OverlayNone<C>(view: map<PageId, C>)
    ensures Overlay(view, []) == view
  {
  }

  /** An overlay has the new contents of the changed pages, and every other page as it was. */
  lemma {:induction false} OverlayIs<C(!new)>(view: map<PageId, C>, changed: seq<(PageId, C)>)
    requires forall i, j :: 0 <= i < j < |changed| ==> changed[i].0 != changed[j].0
    ensures forall i :: 0 <= i < |changed| ==>
              changed[i].0 in Overlay(view, changed) && Overlay(view, changed)[changed[i].0] == changed[i].1
    ensures Agree(Overlay(view, changed), view, Ids(changed))
  {
    if changed != [] {
      var n := |changed| - 1;
      OverlayIs(view, changed[..n]);
      NextId(changed, n);
      assert changed[..n + 1] == changed;
      OverlayNext(view, changed, n);
      hide Overlay, Ids;
      var before := Overlay(view, changed[..n]);
      forall i | 0 <= i < |changed|
        ensures changed[i].0 in Overlay(view, changed) && Overlay(view, changed)[changed[i].0] == changed[i].1
      {
        if i < n {
          assert changed[..n][i] == changed[i];
        }
      }
    } else {
      NoIds(changed);
    }
  }
}
