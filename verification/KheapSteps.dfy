/** What the in-place steps of the allocator do to the heap they represent. */
module KheapSteps {
  import opened Common
  import opened Kheap
  import opened KheapSafety
  import opened KheapRefs
  import opened KheapRep

  /** Only the free-list fields of one reference change. */
  ghost predicate OnlyPage(st: Store, st': Store, r: nat) {
    && |st'.refs| == |st.refs| && r < |st.refs|
    && st'.bases == st.bases && st'.all == st.all
    && st'.refs[r].nextSame == st.refs[r].nextSame && st'.refs[r].nextAll == st.refs[r].nextAll
    && forall x :: 0 <= x < |st.refs| && x != r ==> st'.refs[x] == st.refs[x]
  }

  lemma ListsKept(st: Store, st': Store, h: Heap, refOf: map<nat, nat>, r: nat)
    requires ListsRep(st, h, refOf) && OnlyPage(st, st', r)
    ensures forall pages :: ListsRep(st', h.(pages := pages), refOf)
  {
    forall b: BlockType
      ensures Chain(st'.refs, false, refOf, st'.bases[b], h.bySize[b])
    {
      ChainKept(st.refs, st'.refs, false, refOf, refOf, st.bases[b], h.bySize[b]);
    }
    ChainKept(st.refs, st'.refs, true, refOf, refOf, st.all, h.all);
  }

  /** A step that changes one page's reference and words of that page only. */
  lemma PageStep(st: Store, st': Store, h: Heap, refOf: map<nat, nat>, page: nat, hp: HeapPage)
    requires Rep(st, h, refOf) && page in h.pages && OnlyPage(st, st', refOf[page])
    requires forall p :: p in h.pages ==> PageOk(p, h.pages[p]) || p == page
    requires forall a :: a in st.mem && PageFrame(a) != page ==> a in st'.mem && st'.mem[a] == st.mem[a]
    requires PageRep(st'.refs[refOf[page]], st'.mem, page, hp)
    ensures Rep(st', h.(pages := h.pages[page := hp]), refOf)
  {
    ListsKept(st, st', h, refOf, refOf[page]);
    var pages' := h.pages[page := hp];
    forall p | p in pages'
      ensures PageRep(st'.refs[refOf[p]], st'.mem, p, pages'[p])
    {
      if p != page {
        assert PageOk(p, h.pages[p]);
        FreeListKept(st.mem, st'.mem, p, h.pages[p]);
      }
    }
  }

  lemma TakeRep(st: Store, st': Store, h: Heap, refOf: map<nat, nat>, page: nat)
    requires Rep(st, h, refOf) && ListsOk(h) && page in h.pages && h.pages[page].free != []
    requires forall p :: p in h.pages ==> PageWhole(p, h.pages[p])
    requires forall p :: p in h.pages && p != page ==> PageOk(p, h.pages[p])
    requires OnlyPage(st, st', refOf[page]) && st'.mem == st.mem
    requires PageRep(st'.refs[refOf[page]], st.mem, page, h.pages[page].(free := h.pages[page].free[1..]))
    ensures Rep(st', Take(h, page).0, refOf) && HeapInv(Take(h, page).0)
  {
    PageStep(st, st', h, refOf, page, h.pages[page].(free := h.pages[page].free[1..]));
    TakeKeeps(h, page);
  }

  /** The store after a page joins the front of its two lists. */
  ghost predicate PageAdded(st: Store, st': Store, blk: BlockType, page: nat, r: nat) {
    && |st.refs| == |st'.refs| == TOTAL_REFS && |st.bases| == NSIZES && r < TOTAL_REFS
    && (forall x :: 0 <= x < TOTAL_REFS && x != r ==> st'.refs[x] == st.refs[x])
    && st'.bases == st.bases[blk := r] && st'.all == r
    && st'.refs[r].nextSame == st.bases[blk] && st'.refs[r].nextAll == st.all
    && (forall a :: a in st.mem && PageFrame(a) != page ==> a in st'.mem && st'.mem[a] == st.mem[a])
    && PageRep(st'.refs[r], st'.mem, page, HeapPage(blk, FreshList(BlocksPerPage(blk))))
  }

  lemma AddPageRep(st: Store, st': Store, h: Heap, refOf: map<nat, nat>, blk: BlockType, page: nat, r: nat)
    requires Rep(st, h, refOf) && HeapInv(h) && page !in h.pages && PageAdded(st, st', blk, page, r)
    requires forall p :: p in refOf ==> refOf[p] != r
    ensures Rep(st', AddPage(h, blk, page), refOf[page := r])
  {
    AddPagePages(st, st', h.pages, refOf, blk, page, r);
    AddPageChains(st, st', h, refOf, blk, page, r);
  }

  lemma AddPagePages(st: Store, st': Store, pages: map<nat, HeapPage>, refOf: map<nat, nat>,
                     blk: BlockType, page: nat, r: nat)
    requires PagesRep(st, pages, refOf) && page !in pages && PageAdded(st, st', blk, page, r)
    requires forall p :: p in pages ==> PageOk(p, pages[p])
    requires forall p :: p in refOf ==> refOf[p] != r
    ensures PagesRep(st', pages[page := HeapPage(blk, FreshList(BlocksPerPage(blk)))], refOf[page := r])
  {
    forall p | p in pages
      ensures PageRep(st'.refs[refOf[p]], st'.mem, p, pages[p])
    {
      assert PageOk(p, pages[p]);
      FreeListKept(st.mem, st'.mem, p, pages[p]);
    }
  }

  lemma AddPageChains(st: Store, st': Store, h: Heap, refOf: map<nat, nat>, blk: BlockType, page: nat, r: nat)
    requires ListsRep(st, h, refOf) && PageAdded(st, st', blk, page, r) && page !in refOf
    requires forall p :: p in refOf ==> refOf[p] != r
    ensures ListsRep(st', AddPage(h, blk, page), refOf[page := r])
  {
    var h', refOf' := AddPage(h, blk, page), refOf[page := r];
    forall b: BlockType
      ensures Chain(st'.refs, false, refOf', st'.bases[b], h'.bySize[b])
    {
      ChainKept(st.refs, st'.refs, false, refOf, refOf', st.bases[b], h.bySize[b]);
      if b == blk {
        ChainCons(st'.refs, false, refOf', st.bases[blk], h.bySize[blk], page);
      }
    }
    ChainKept(st.refs, st'.refs, true, refOf, refOf', st.all, h.all);
    ChainCons(st'.refs, true, refOf', st.all, h.all, page);
  }

  lemma FreshIsWhole(page: nat, blk: BlockType)
    requires page > 0 && page % PAGE_SIZE == 0
    ensures PageWhole(page, HeapPage(blk, FreshList(BlocksPerPage(blk))))
  {
  }

  /** A new page from which the first block is taken. */
  lemma GrowRep(st: Store, st1: Store, st2: Store, h: Heap, refOf: map<nat, nat>, blk: BlockType, page: nat, r: nat)
    requires Rep(st, h, refOf) && HeapInv(h) && FreshPage(h, Some(page)) && PageAdded(st, st1, blk, page, r)
    requires forall p :: p in refOf ==> refOf[p] != r
    requires OnlyPage(st1, st2, r) && st2.mem == st1.mem
    requires PageRep(st2.refs[r], st1.mem, page, HeapPage(blk, FreshList(BlocksPerPage(blk))[1..]))
    ensures
      var h' := Take(AddPage(h, blk, page), page).0;
      Rep(st2, h', refOf[page := r]) && HeapInv(h')
  {
    AddPageRep(st, st1, h, refOf, blk, page, r);
    AddPageKeeps(h, blk, page);
    TakeRep(st1, st2, AddPage(h, blk, page), refOf[page := r], page);
  }

  /** Only links of one list change, and only in references of the pages on it. */
  ghost predicate Unlinked(st: Store, st': Store, all: bool, blk: BlockType, refOf: map<nat, nat>, list: seq<nat>) {
    && |st'.refs| == |st.refs| && |st.bases| == |st'.bases| == NSIZES && st'.mem == st.mem
    && (if all then st'.bases == st.bases else st'.all == st.all)
    && (forall b: BlockType :: b != blk ==> st'.bases[b] == st.bases[b])
    && forall x :: 0 <= x < |st.refs| ==> RefUnlinked(st.refs[x], st'.refs[x], all, InImage(refOf, list, x))
  }

  ghost predicate RefUnlinked(pr: PageRef, pr': PageRef, all: bool, onList: bool) {
    && pr'.pab == pr.pab && pr'.freeOff == pr.freeOff && pr'.nfree == pr.nfree
    && NextOf(pr', !all) == NextOf(pr, !all)
    && (onList || NextOf(pr', all) == NextOf(pr, all))
  }

  ghost predicate InImage(refOf: map<nat, nat>, list: seq<nat>, x: nat) {
    exists p :: p in list && p in refOf && refOf[p] == x
  }

  /** The heap without a page. */
  function Dropped(h: Heap, page: nat): Heap
    requires |h.bySize| == NSIZES && page in h.pages
  {
    var blk := h.pages[page].blk;
    Heap(h.pages - {page}, h.bySize[blk := Remove(h.bySize[blk], page)], Remove(h.all, page))
  }

  /** The store represents the heap but for the free list of one page. */
  ghost predicate Rest(st: Store, h: Heap, refOf: map<nat, nat>, page: nat) {
    && page in h.pages && RefsOk(refOf, h.pages) && ListsRep(st, h, refOf)
    && PagesRep(st, h.pages - {page}, refOf - {page})
  }

  /** A page taken off both its lists is gone from the heap. */
  lemma DropRep(st: Store, st1: Store, st2: Store, h: Heap, refOf: map<nat, nat>, page: nat)
    requires Rest(st, h, refOf, page) && ListsOk(h)
    requires
      var blk := h.pages[page].blk;
      && Unlinked(st, st1, false, blk, refOf, h.bySize[blk])
      && Chain(st1.refs, false, refOf, st1.bases[blk], Remove(h.bySize[blk], page))
      && Unlinked(st1, st2, true, blk, refOf, h.all)
      && Chain(st2.refs, true, refOf, st2.all, Remove(h.all, page))
    ensures Rep(st2, Dropped(h, page), refOf - {page})
  {
    var blk := h.pages[page].blk;
    var h' := Dropped(h, page);
    RemovePageLists(h, page);
    DropPages(st, st1, st2, h.pages - {page}, refOf, page, blk, h.bySize[blk], h.all);
    forall b: BlockType
      ensures Chain(st2.refs, false, refOf - {page}, st2.bases[b], h'.bySize[b])
    {
      if b != blk {
        OtherChain(st, st1, h, refOf, blk, b);
      }
      NotListed(h', page, b);
      ChainDropped(st1, st2, refOf, h.all, page, blk, b, h'.bySize[b]);
    }
    NotListed(h', page, 0);
    ChainKept(st2.refs, st2.refs, true, refOf, refOf - {page}, st2.all, h'.all);
  }

  lemma NotListed(h: Heap, page: nat, b: BlockType)
    requires ListsOk(h) && page !in h.pages
    ensures page !in h.bySize[b] && page !in h.all
  {
  }

  lemma DropPages(st: Store, st1: Store, st2: Store, pages: map<nat, HeapPage>, refOf: map<nat, nat>, page: nat,
                  blk: BlockType, same: seq<nat>, all: seq<nat>)
    requires PagesRep(st, pages, refOf - {page})
    requires Unlinked(st, st1, false, blk, refOf, same) && Unlinked(st1, st2, true, blk, refOf, all)
    ensures PagesRep(st2, pages, refOf - {page})
  {
    forall p | p in pages
      ensures PageRep(st2.refs[refOf[p]], st2.mem, p, pages[p])
    {
      var x := refOf[p];
      assert PageRep(st.refs[x], st.mem, p, pages[p]);
      assert RefUnlinked(st.refs[x], st1.refs[x], false, InImage(refOf, same, x));
      assert RefUnlinked(st1.refs[x], st2.refs[x], true, InImage(refOf, all, x));
    }
  }

  /** Lists of other block sizes are not touched. */
  lemma OtherChain(st: Store, st1: Store, h: Heap, refOf: map<nat, nat>, blk: BlockType, b: BlockType)
    requires ListsRep(st, h, refOf) && RefsOk(refOf, h.pages) && ListsOk(h) && b != blk
    requires Unlinked(st, st1, false, blk, refOf, h.bySize[blk])
    ensures Chain(st1.refs, false, refOf, st1.bases[b], h.bySize[b])
  {
    forall p | p in h.bySize[b] && p in refOf
      ensures NextOf(st1.refs[refOf[p]], false) == NextOf(st.refs[refOf[p]], false)
    {
      var x := refOf[p];
      assert RefUnlinked(st.refs[x], st1.refs[x], false, InImage(refOf, h.bySize[blk], x));
      assert p !in h.bySize[blk];
      assert !InImage(refOf, h.bySize[blk], x);
    }
    ChainKept(st.refs, st1.refs, false, refOf, refOf, st.bases[b], h.bySize[b]);
  }

  lemma ChainDropped(st1: Store, st2: Store, refOf: map<nat, nat>, all: seq<nat>, page: nat, blk: BlockType,
                     b: BlockType, list: seq<nat>)
    requires Unlinked(st1, st2, true, blk, refOf, all) && Chain(st1.refs, false, refOf, st1.bases[b], list)
    requires page !in list
    ensures Chain(st2.refs, false, refOf - {page}, st2.bases[b], list)
  {
    forall p | p in list && p in refOf && refOf[p] < |st1.refs|
      ensures NextOf(st2.refs[refOf[p]], false) == NextOf(st1.refs[refOf[p]], false)
    {
      assert RefUnlinked(st1.refs[refOf[p]], st2.refs[refOf[p]], true, InImage(refOf, all, refOf[p]));
    }
    ChainKept(st1.refs, st2.refs, false, refOf, refOf - {page}, st1.bases[b], list);
  }

  /** Empty lists represent the empty heap. */
  lemma EmptyRep(st: Store)
    requires |st.refs| == TOTAL_REFS && |st.bases| == NSIZES && st.all == NIL
    requires forall b: BlockType :: st.bases[b] == NIL
    ensures HeapInv(EmptyHeap()) && Rep(st, EmptyHeap(), map[])
  {
    forall b: BlockType
      ensures EmptyHeap().bySize[b] == []
    {
      assert b == 0 || b == 1 || b == 2 || b == 3 || b == 4 || b == 5 || b == 6 || b == 7;
    }
  }

  // ------------------------------------------------------------------------ frees

  /** The reference of a page tells its address, and a pointer is on the page exactly when it is in the
      page's range of addresses. */
  lemma RefTellsPage(pr: PageRef, mem: map<nat, nat>, page: nat, hp: HeapPage, ptr: nat)
    requires PageRep(pr, mem, page, hp) && PageOk(page, hp)
    ensures PageAddr(pr) == page && BlockTypeOf(pr) == hp.blk
    ensures page <= ptr < page + PAGE_SIZE <==> PageFrame(ptr) == page
  {
  }

  /** The reference of a page onto whose free list a block is put. */
  function Pushed(pr: PageRef, offset: nat): PageRef {
    pr.(freeOff := offset, nfree := pr.nfree + 1)
  }

  /** The word a freed block gets: the address of the block that was first. */
  function HeadWord(pr: PageRef): nat {
    if pr.freeOff == INVALID_OFFSET then 0 else PageAddr(pr) + pr.freeOff
  }

  /** Outside one block the memory is as it was. */
  ghost predicate OnlyBlock(mem: map<nat, nat>, mem': map<nat, nat>, a: nat, n: nat) {
    forall x :: x in mem && !(a <= x < a + n) ==> x in mem' && mem'[x] == mem[x]
  }

  /** The block is the first on its page's free list. */
  predicate FirstFree(hp: HeapPage, i: nat) {
    hp.free != [] && hp.free[0] == i
  }

  lemma HeadIsFirst(pr: PageRef, mem: map<nat, nat>, page: nat, hp: HeapPage, i: nat)
    requires PageRep(pr, mem, page, hp) && PageOk(page, hp) && i < BlocksPerPage(hp.blk)
    ensures HeadWord(pr) == Link(page, hp.blk, hp.free, 0)
    ensures pr.freeOff == INVALID_OFFSET <==> hp.free == []
    ensures HeadWord(pr) == BlockAddr(page, hp.blk, i) <==> FirstFree(hp, i)
  {
    BlockInPage(page, hp.blk, i);
    if hp.free != [] {
      BlockInPage(page, hp.blk, hp.free[0]);
      if hp.free[0] != i { Outside(page, hp.blk, i, hp.free[0]); }
    }
  }

  /** The block is put in front of its page's free list. */
  ghost predicate PutOn(pr: PageRef, mem: map<nat, nat>, mem': map<nat, nat>, page: nat, blk: BlockType, i: nat) {
    var a := BlockAddr(page, blk, i);
    a in mem' && mem'[a] == HeadWord(pr) && OnlyBlock(mem, mem', a, SizeOf(blk))
  }

  lemma PushRep(pr: PageRef, mem: map<nat, nat>, mem': map<nat, nat>, page: nat, hp: HeapPage, i: nat)
    requires PageRep(pr, mem, page, hp) && PageOk(page, hp) && i < BlocksPerPage(hp.blk) && i !in hp.free
    requires PutOn(pr, mem, mem', page, hp.blk, i)
    ensures PageRep(Pushed(pr, i * SizeOf(hp.blk)), mem', page, hp.(free := [i] + hp.free))
  {
    HeadIsFirst(pr, mem, page, hp, i);
    FreeListCons(mem, mem', page, hp, i);
  }

  lemma SameIndex(page: nat, blk: BlockType, i: nat, j: nat)
    requires BlockAddr(page, blk, i) == BlockAddr(page, blk, j)
    ensures i == j
  {
    if i != j { Outside(page, blk, i, j); }
  }

  /** Along a list that begins with a block put on a second time come the blocks that were free before, as
      far as the block itself. */
  lemma {:induction false} LoopFollows(pr: PageRef, mem: map<nat, nat>, mem': map<nat, nat>, page: nat, hp: HeapPage,
                                       k: nat, free: seq<nat>, j: nat)
    requires PageRep(pr, mem, page, hp) && PageOk(page, hp) && j <= k < |hp.free|
    requires PutOn(pr, mem, mem', page, hp.blk, hp.free[k])
    requires FreeList(mem', page, hp.blk, free) && |free| == |hp.free| + 1 && free[0] == hp.free[k]
    ensures free[j + 1] == hp.free[j]
  {
    var blk := hp.blk;
    assert FreeWord(mem', page, blk, free, j);
    if j == 0 {
      HeadIsFirst(pr, mem, page, hp, hp.free[0]);
    } else {
      LoopFollows(pr, mem, mem', page, hp, k, free, j - 1);
      assert FreeWord(mem, page, blk, hp.free, j - 1);
      Outside(page, blk, hp.free[k], hp.free[j - 1]);
    }
    SameIndex(page, blk, free[j + 1], hp.free[j]);
  }

  /** The words lead from block `i` to the block that was first, from there along the list, and back to `i`,
      which was at `k`. */
  ghost predicate Looped(mem: map<nat, nat>, page: nat, hp: HeapPage, i: nat, k: nat) {
    && k < |hp.free| && hp.free[k] == i
    && BlockAddr(page, hp.blk, i) in mem && mem[BlockAddr(page, hp.blk, i)] == BlockAddr(page, hp.blk, hp.free[0])
    && forall j: nat :: j < k ==> FreeWord(mem, page, hp.blk, hp.free, j)
  }

  lemma LoopBack(pr: PageRef, mem: map<nat, nat>, mem': map<nat, nat>, page: nat, hp: HeapPage, i: nat, k: nat)
    requires PageRep(pr, mem, page, hp) && PageOk(page, hp) && PutOn(pr, mem, mem', page, hp.blk, i)
    requires k < |hp.free| && hp.free[k] == i
    ensures Looped(mem', page, hp, i, k)
  {
    HeadIsFirst(pr, mem, page, hp, hp.free[0]);
    forall j: nat | j < k
      ensures FreeWord(mem', page, hp.blk, hp.free, j)
    {
      assert FreeWord(mem, page, hp.blk, hp.free, j);
      Outside(page, hp.blk, i, hp.free[j]);
    }
  }

  /** A block put on its page's free list a second time makes the list a loop, which is the free list of
      no page. */
  lemma SecondFreeBreaks(pr: PageRef, mem: map<nat, nat>, mem': map<nat, nat>, page: nat, hp: HeapPage, i: nat)
    requires PageRep(pr, mem, page, hp) && PageOk(page, hp) && i in hp.free && PutOn(pr, mem, mem', page, hp.blk, i)
    ensures exists k: nat :: Looped(mem', page, hp, i, k)
    ensures forall hp' :: PageOk(page, hp') ==> !PageRep(Pushed(pr, i * SizeOf(hp.blk)), mem', page, hp')
  {
    var k :| 0 <= k < |hp.free| && hp.free[k] == i;
    LoopBack(pr, mem, mem', page, hp, i, k);
    forall hp' | PageOk(page, hp')
      ensures !PageRep(Pushed(pr, i * SizeOf(hp.blk)), mem', page, hp')
    {
      if PageRep(Pushed(pr, i * SizeOf(hp.blk)), mem', page, hp') {
        SameIndex(page, hp.blk, hp'.free[0], i);
        LoopFollows(pr, mem, mem', page, hp, k, hp'.free, k);
      }
    }
  }

  /** A block lies on one page, so a change inside it is a change inside that page. */
  lemma BlockOnPage(mem: map<nat, nat>, mem': map<nat, nat>, page: nat, blk: BlockType, i: nat)
    requires page % PAGE_SIZE == 0 && i < BlocksPerPage(blk)
    requires OnlyBlock(mem, mem', BlockAddr(page, blk, i), SizeOf(blk))
    ensures forall a :: a in mem && PageFrame(a) != page ==> a in mem' && mem'[a] == mem[a]
  {
    BlockInPage(page, blk, i);
  }

  /** The store represents the heap with the block on its page's free list. */
  lemma FreeRep(st: Store, st': Store, h: Heap, refOf: map<nat, nat>, b: Block)
    requires Rep(st, h, refOf) && HeapInv(h) && IsLive(h, b)
    requires OnlyPage(st, st', refOf[b.page])
    requires
      var hp := h.pages[b.page];
      && OnlyBlock(st.mem, st'.mem, AddrOf(h, b), SizeOf(hp.blk))
      && PageRep(st'.refs[refOf[b.page]], st'.mem, b.page, hp.(free := [b.index] + hp.free))
    ensures Rep(st', Returned(h, b), refOf)
  {
    var hp := h.pages[b.page];
    assert PageOk(b.page, hp);
    BlockOnPage(st.mem, st'.mem, b.page, hp.blk, b.index);
    PageStep(st, st', h, refOf, b.page, hp.(free := [b.index] + hp.free));
  }

  /** A change inside one block of a page, and to the page's reference, leaves the other pages alone. */
  lemma RestKept(st: Store, st': Store, h: Heap, refOf: map<nat, nat>, b: Block)
    requires Rep(st, h, refOf) && HeapInv(h) && b.page in h.pages && b.index < BlocksPerPage(h.pages[b.page].blk)
    requires OnlyPage(st, st', refOf[b.page])
    requires OnlyBlock(st.mem, st'.mem, AddrOf(h, b), SizeOf(h.pages[b.page].blk))
    ensures Rest(st', h, refOf, b.page)
  {
    assert PageOk(b.page, h.pages[b.page]);
    BlockOnPage(st.mem, st'.mem, b.page, h.pages[b.page].blk, b.index);
    ListsKept(st, st', h, refOf, refOf[b.page]);
    forall p | p in h.pages && p != b.page
      ensures PageRep(st'.refs[refOf[p]], st'.mem, p, h.pages[p])
    {
      assert PageRep(st.refs[refOf[p]], st.mem, p, h.pages[p]) && PageOk(p, h.pages[p]);
      FreeListKept(st.mem, st'.mem, p, h.pages[p]);
    }
    assert h.(pages := h.pages) == h;
  }

  /** The heap with a block put back on its page, the page kept. */
  function Returned(h: Heap, b: Block): Heap
    requires b.page in h.pages
  {
    var hp := h.pages[b.page];
    h.(pages := h.pages[b.page := hp.(free := [b.index] + hp.free)])
  }

  /** Freeing the last live block of a page drops the page, whichever block is freed. */
  lemma FreeDrops(h: Heap, b: Block)
    requires HeapInv(h) && b.page in h.pages
    requires |h.pages[b.page].free| + 1 == BlocksPerPage(h.pages[b.page].blk)
    ensures Free(h, b) == (Dropped(h, b.page), Some(b.page)) && HeapInv(Dropped(h, b.page))
  {
    RemovePageLists(h, b.page);
  }

  /** Freeing a block of a page with other live blocks keeps the page. */
  lemma FreeReturns(h: Heap, b: Block)
    requires HeapInv(h) && IsLive(h, b) && |h.pages[b.page].free| + 1 < BlocksPerPage(h.pages[b.page].blk)
    ensures Free(h, b) == (Returned(h, b), None) && HeapInv(Returned(h, b))
  {
    FreeKeeps(h, b);
  }

  /** A word written inside a live block disturbs no free list. */
  lemma OwnerWrite(st: Store, h: Heap, refOf: map<nat, nat>, b: Block, a: nat, v: nat)
    requires Rep(st, h, refOf) && HeapInv(h) && IsLive(h, b)
    requires AddrOf(h, b) <= a < AddrOf(h, b) + SizeOf(h.pages[b.page].blk)
    ensures Rep(st.(mem := st.mem[a := v]), h, refOf)
  {
    var hp := h.pages[b.page];
    assert PageOk(b.page, hp);
    var st' := st.(mem := st.mem[a := v]);
    var r := refOf[b.page];
    assert PageRep(st.refs[r], st.mem, b.page, hp);
    forall k: nat | k < |hp.free|
      ensures FreeWord(st'.mem, b.page, hp.blk, hp.free, k)
    {
      assert FreeWord(st.mem, b.page, hp.blk, hp.free, k);
      Outside(b.page, hp.blk, b.index, hp.free[k]);
    }
    BlockOnPage(st.mem, st'.mem, b.page, hp.blk, b.index);
    PageStep(st, st', h, refOf, b.page, hp);
    assert h.pages[b.page := hp] == h.pages;
  }

  ghost function Position(list: seq<nat>, page: nat): (k: nat)
    requires page in list
    ensures k < |list| && list[k] == page
  {
    var k :| 0 <= k < |list| && list[k] == page;
    k
  }

  /** Taking a page off its size list leaves the list of all pages linked. */
  lemma AllChainKept(st: Store, st1: Store, blk: BlockType, refOf: map<nat, nat>, same: seq<nat>, all: seq<nat>)
    requires Unlinked(st, st1, false, blk, refOf, same) && Chain(st.refs, true, refOf, st.all, all)
    ensures Chain(st1.refs, true, refOf, st1.all, all)
  {
    forall p | p in all && p in refOf && refOf[p] < |st.refs|
      ensures NextOf(st1.refs[refOf[p]], true) == NextOf(st.refs[refOf[p]], true)
    {
      assert RefUnlinked(st.refs[refOf[p]], st1.refs[refOf[p]], false, InImage(refOf, same, refOf[p]));
    }
    ChainKept(st.refs, st1.refs, true, refOf, refOf, st.all, all);
  }
}
