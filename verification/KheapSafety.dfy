/** Safety of the sub-page heap over every sequence of allocations and frees. */
module KheapSafety {
  import opened Common
  import opened Finite
  import opened Kheap

  /** `PageOk`, for a page that may have all its blocks free. */
  ghost predicate PageWhole(page: nat, hp: HeapPage) {
    && page > 0 && page % PAGE_SIZE == 0
    && Distinct(hp.free)
    && (forall k :: 0 <= k < |hp.free| ==> hp.free[k] < BlocksPerPage(hp.blk))
    && |hp.free| <= BlocksPerPage(hp.blk)
  }

  lemma TakePage(page: nat, hp: HeapPage)
    requires PageWhole(page, hp) && hp.free != []
    ensures PageOk(page, hp.(free := hp.free[1..]))
    ensures forall i :: i in hp.free[1..] <==> i in hp.free && i != hp.free[0]
  {
    var f := hp.free;
    forall i | i in f && i != f[0]
      ensures i in f[1..]
    {
      var k :| 0 <= k < |f| && f[k] == i;
      assert f[1..][k - 1] == i;
    }
  }

  /** Pages in both heaps have the same block type in both. */
  ghost predicate SameTypes(h: Heap, h': Heap) {
    forall p :: p in h.pages && p in h'.pages ==> h'.pages[p].blk == h.pages[p].blk
  }

  /** Taking a block makes exactly that block live. */
  lemma TakeKeeps(h: Heap, page: nat)
    requires ListsOk(h) && page in h.pages && h.pages[page].free != []
    requires forall p :: p in h.pages ==> PageWhole(p, h.pages[p])
    requires forall p :: p in h.pages && p != page ==> PageOk(p, h.pages[p])
    ensures
      var (h', b) := Take(h, page);
      && HeapInv(h')
      && b.page == page && !IsLive(h, b)
      && SameTypes(h, h') && h'.pages[page].blk == h.pages[page].blk
      && forall x :: IsLive(h', x) <==> IsLive(h, x) || x == b
  {
    TakePage(page, h.pages[page]);
  }

  /** A fresh page joins the lists with no live block. */
  lemma AddPageKeeps(h: Heap, blk: BlockType, page: nat)
    requires HeapInv(h) && page !in h.pages && page > 0 && page % PAGE_SIZE == 0
    ensures
      var h' := AddPage(h, blk, page);
      && ListsOk(h')
      && (forall p :: p in h'.pages ==> PageWhole(p, h'.pages[p]))
      && (forall p :: p in h'.pages && p != page ==> PageOk(p, h'.pages[p]))
      && SameTypes(h, h')
      && forall x :: IsLive(h', x) <==> IsLive(h, x)
  {
    var h' := AddPage(h, blk, page);
    AddPageLists(h, blk, page);
    var n := BlocksPerPage(blk);
    forall i: nat | i < n
      ensures i in FreshList(n)
    {
      assert FreshList(n)[n - 1 - i] == i;
    }
  }

  lemma AddPageLists(h: Heap, blk: BlockType, page: nat)
    requires ListsOk(h) && page !in h.pages
    ensures ListsOk(AddPage(h, blk, page))
  {
    var h' := AddPage(h, blk, page);
    forall b: BlockType
      ensures Listed(h'.pages, h'.bySize[b], b)
    {
      assert Listed(h.pages, h.bySize[b], b);
      assert h'.bySize[b] == if b == blk then [page] + h.bySize[b] else h.bySize[b];
    }
  }

  /** What a caller of `alloc_kpages` gets: a page-aligned address that is not yet heap. */
  ghost predicate FreshPage(h: Heap, newPage: Option<nat>) {
    newPage.Some? ==> newPage.value > 0 && newPage.value % PAGE_SIZE == 0 && newPage.value !in h.pages
  }

  /** An allocation hands out one new block of the right type, or changes nothing; it fails only when
      no page of that type has room and no page can be had. */
  lemma MallocKeeps(h: Heap, blk: BlockType, newPage: Option<nat>)
    requires HeapInv(h) && FreshPage(h, newPage)
    ensures
      var (h', r) := Malloc(h, blk, newPage);
      && HeapInv(h') && SameTypes(h, h')
      && (r.None? ==>
            h' == h && newPage.None? && forall p :: p in h.pages && h.pages[p].blk == blk ==> h.pages[p].free == [])
      && (r.Some? ==>
            && !IsLive(h, r.value) && IsLive(h', r.value) && h'.pages[r.value.page].blk == blk
            && (r.value.page in h.pages || Some(r.value.page) == newPage)
            && forall x :: IsLive(h', x) <==> IsLive(h, x) || x == r.value)
  {
    match FirstWithRoom(h.pages, h.bySize[blk])
    case Some(page) =>
      assert page in h.bySize[blk];
      WholePages(h);
      TakeKeeps(h, page);
    case None =>
      if newPage.Some? {
        AddPageKeeps(h, blk, newPage.value);
        TakeKeeps(AddPage(h, blk, newPage.value), newPage.value);
      } else {
        forall p | p in h.pages && h.pages[p].blk == blk
          ensures h.pages[p].free == []
        {
          assert p in h.bySize[blk];
        }
      }
  }

  lemma WholePages(h: Heap)
    requires HeapInv(h)
    ensures forall p :: p in h.pages ==> PageWhole(p, h.pages[p])
  {
    forall p | p in h.pages
      ensures PageWhole(p, h.pages[p])
    {
      assert PageOk(p, h.pages[p]);
    }
  }

  // ------------------------------------------------------------------------- free

  lemma {:induction false} RemoveOk(s: seq<nat>, x: nat)
    requires Distinct(s)
    ensures Distinct(Remove(s, x))
    ensures forall y :: y in Remove(s, x) <==> y in s && y != x
  {
    if s != [] {
      assert s == [s[0]] + s[1..] && s[0] !in s[1..];
      RemoveOk(s[1..], x);
    }
  }

  /** The free list of a page with one live block holds all the others. */
  lemma LastLive(n: nat, free: seq<nat>, i: nat, j: nat)
    requires Distinct(free) && |free| + 1 == n && (forall k :: 0 <= k < |free| ==> free[k] < n)
    requires i < n && i !in free && j < n && j !in free
    ensures i == j
  {
    Pigeonhole(free + [i], n);
    assert j in free + [i];
  }

  lemma FreePage(page: nat, hp: HeapPage, i: nat)
    requires PageOk(page, hp) && i < BlocksPerPage(hp.blk) && i !in hp.free
    requires |hp.free| + 1 < BlocksPerPage(hp.blk)
    ensures PageOk(page, hp.(free := [i] + hp.free))
  {
  }

  /** Freeing a live block ends the life of exactly that block, and its page goes back to the kernel
      exactly when no other block of it is live. */
  lemma FreeKeeps(h: Heap, b: Block)
    requires HeapInv(h) && IsLive(h, b)
    ensures
      var (h', back) := Free(h, b);
      && HeapInv(h') && SameTypes(h, h')
      && (forall x :: IsLive(h', x) <==> IsLive(h, x) && x != b)
      && (back == Some(b.page) || back == None)
      && (back.Some? <==> forall x :: IsLive(h, x) && x.page == b.page ==> x == b)
      && (back.Some? <==> b.page !in h'.pages)
  {
    var hp := h.pages[b.page];
    assert PageOk(b.page, hp);
    var n := BlocksPerPage(hp.blk);
    if |hp.free| + 1 == n {
      FreeLast(h, b);
    } else {
      FreePage(b.page, hp, b.index);
      FreeOne(h, b);
      OtherLive(h, b);
    }
  }

  /** Freeing the block just allocated gives back the heap there was, lists and all, and the page exactly if
      it was new. */
  lemma FreeUndoesMalloc(h: Heap, blk: BlockType, newPage: Option<nat>)
    requires HeapInv(h) && FreshPage(h, newPage) && Malloc(h, blk, newPage).1.Some?
    ensures
      var (h', r) := Malloc(h, blk, newPage);
      r.value.page in h'.pages && Free(h', r.value) == (h, if r.value.page in h.pages then None else newPage)
  {
    var (h', r) := Malloc(h, blk, newPage);
    var page := r.value.page;
    if page in h.pages {
      var hp := h.pages[page];
      assert PageOk(page, hp);
      assert [hp.free[0]] + hp.free[1..] == hp.free;
      assert Free(h', r.value).0.pages == h.pages;
    } else {
      assert h'.pages - {page} == h.pages;
      assert Free(h', r.value).0.bySize == h.bySize;
    }
  }

  /** The last block freed is the first to be handed out again, and that gives back the heap there was. */
  lemma MallocUndoesFree(h: Heap, b: Block, newPage: Option<nat>)
    requires HeapInv(h) && IsLive(h, b) && Free(h, b).1.None?
    requires
      var h' := Free(h, b).0;
      FirstWithRoom(h'.pages, h'.bySize[h.pages[b.page].blk]) == Some(b.page)
    ensures Malloc(Free(h, b).0, h.pages[b.page].blk, newPage) == (h, Some(b))
  {
    var h' := Free(h, b).0;
    assert h'.pages[b.page].free[1..] == h.pages[b.page].free;
    assert Take(h', b.page).0.pages == h.pages;
  }

  lemma FreeOne(h: Heap, b: Block)
    requires HeapInv(h) && IsLive(h, b) && |h.pages[b.page].free| + 1 < BlocksPerPage(h.pages[b.page].blk)
    requires PageOk(b.page, h.pages[b.page].(free := [b.index] + h.pages[b.page].free))
    ensures
      var h' := Free(h, b).0;
      HeapInv(h') && forall x :: IsLive(h', x) <==> IsLive(h, x) && x != b
  {
  }

  /** A page with more free space missing than one block has another live block. */
  lemma OtherLive(h: Heap, b: Block)
    requires HeapInv(h) && IsLive(h, b) && |h.pages[b.page].free| + 1 < BlocksPerPage(h.pages[b.page].blk)
    ensures exists x :: IsLive(h, x) && x.page == b.page && x != b
  {
    var hp := h.pages[b.page];
    var n := BlocksPerPage(hp.blk);
    var taken := [b.index] + hp.free;
    assert PageOk(b.page, hp);
    Pigeonhole(taken, n);
    var i: nat :| i < n && i !in taken;
    assert IsLive(h, Block(b.page, i));
  }

  lemma FreeLast(h: Heap, b: Block)
    requires HeapInv(h) && IsLive(h, b) && |h.pages[b.page].free| + 1 == BlocksPerPage(h.pages[b.page].blk)
    ensures
      var h' := Free(h, b).0;
      && HeapInv(h')
      && (forall x :: IsLive(h', x) <==> IsLive(h, x) && x != b)
      && forall x :: IsLive(h, x) && x.page == b.page ==> x == b
  {
    var hp := h.pages[b.page];
    assert PageOk(b.page, hp);
    forall x | IsLive(h, x) && x.page == b.page
      ensures x == b
    {
      LastLive(BlocksPerPage(hp.blk), hp.free, x.index, b.index);
    }
    RemovePageLists(h, b.page);
  }

  lemma RemovePageLists(h: Heap, page: nat)
    requires ListsOk(h) && page in h.pages
    ensures
      var blk := h.pages[page].blk;
      ListsOk(Heap(h.pages - {page}, h.bySize[blk := Remove(h.bySize[blk], page)], Remove(h.all, page)))
  {
    var blk := h.pages[page].blk;
    var h' := Heap(h.pages - {page}, h.bySize[blk := Remove(h.bySize[blk], page)], Remove(h.all, page));
    RemoveOk(h.all, page);
    RemoveOk(h.bySize[blk], page);
    forall b: BlockType
      ensures Listed(h'.pages, h'.bySize[b], b)
    {
      assert Listed(h.pages, h.bySize[b], b);
    }
  }

  // ------------------------------------------------------------------------- runs

  datatype Op = Alloc(blk: BlockType, newPage: Option<nat>) | Release(b: Block)

  function Step(h: Heap, op: Op): (r: (Heap, Option<Block>))
    requires |h.bySize| == NSIZES && (op.Release? ==> op.b.page in h.pages)
  {
    match op
    case Alloc(blk, newPage) => Malloc(h, blk, newPage)
    case Release(b) => (Free(h, b).0, None)
  }

  /** The heap before the first allocation. */
  function EmptyHeap(): Heap {
    Heap(map[], [[], [], [], [], [], [], [], []], [])
  }

  /** Allocations get fresh pages, frees name live blocks. */
  ghost predicate OpOk(h: Heap, op: Op) {
    match op
    case Alloc(blk, newPage) => FreshPage(h, newPage)
    case Release(b) => IsLive(h, b)
  }

  ghost predicate IsRun(states: seq<Heap>, ops: seq<Op>, given: seq<Option<Block>>) {
    && |states| == |ops| + 1 && |given| == |ops|
    && states[0] == EmptyHeap()
    && forall i {:trigger ops[i]} :: 0 <= i < |ops| ==>
      && |states[i].bySize| == NSIZES
      && OpOk(states[i], ops[i])
      && Step(states[i], ops[i]) == (states[i + 1], given[i])
  }

  /** The blocks handed out by the first `k` calls and not released by them, each with the block type
      asked for. */
  ghost function Outstanding(ops: seq<Op>, given: seq<Option<Block>>, k: nat): map<Block, BlockType>
    requires k <= |ops| == |given|
    decreases k
  {
    if k == 0 then map[]
    else
      var before := Outstanding(ops, given, k - 1);
      if ops[k - 1].Release? then before - {ops[k - 1].b}
      else if given[k - 1].Some? then before[given[k - 1].value := ops[k - 1].blk]
      else before
  }

  /** The live blocks are those of `out`, on pages of the type asked for. */
  ghost predicate Tracks(h: Heap, out: map<Block, BlockType>) {
    && (forall b :: IsLive(h, b) <==> b in out)
    && (forall b :: IsLive(h, b) ==> h.pages[b.page].blk == out[b])
  }

  lemma AllocTracked(h: Heap, blk: BlockType, newPage: Option<nat>, out: map<Block, BlockType>)
    requires HeapInv(h) && FreshPage(h, newPage) && Tracks(h, out)
    ensures
      var (h', r) := Malloc(h, blk, newPage);
      && HeapInv(h')
      && Tracks(h', if r.Some? then out[r.value := blk] else out)
      && (r.Some? ==> r.value !in out)
  {
    MallocKeeps(h, blk, newPage);
    var (h', r) := Malloc(h, blk, newPage);
    if r.Some? { OneMore(h, h', r.value, blk, out); }
  }

  lemma OneMore(h: Heap, h': Heap, b: Block, blk: BlockType, out: map<Block, BlockType>)
    requires Tracks(h, out) && SameTypes(h, h') && !IsLive(h, b) && IsLive(h', b) && h'.pages[b.page].blk == blk
    requires forall x :: IsLive(h', x) <==> IsLive(h, x) || x == b
    ensures Tracks(h', out[b := blk]) && b !in out
  {
  }

  lemma FreeTracked(h: Heap, b: Block, out: map<Block, BlockType>)
    requires HeapInv(h) && IsLive(h, b) && Tracks(h, out)
    ensures HeapInv(Free(h, b).0) && Tracks(Free(h, b).0, out - {b})
  {
    FreeKeeps(h, b);
  }

  /** Over every run the heap is sound, the live blocks are exactly those handed out and not yet
      released, on pages of the type asked for, and a block handed out is not one still outstanding. */
  lemma {:induction false} HeapRun(states: seq<Heap>, ops: seq<Op>, given: seq<Option<Block>>, k: nat)
    requires IsRun(states, ops, given) && k <= |ops|
    ensures HeapInv(states[k]) && Tracks(states[k], Outstanding(ops, given, k))
    ensures k > 0 && given[k - 1].Some? ==> given[k - 1].value !in Outstanding(ops, given, k - 1)
    decreases k
  {
    if k > 0 {
      HeapRun(states, ops, given, k - 1);
      var h, op, out := states[k - 1], ops[k - 1], Outstanding(ops, given, k - 1);
      assert Step(h, op) == (states[k], given[k - 1]);
      match op
      case Alloc(blk, newPage) => AllocTracked(h, blk, newPage, out);
      case Release(b) => FreeTracked(h, b, out);
    }
  }

  /** A block handed out for a request lies inside its page, aligned to its size, and is large enough. */
  lemma OutstandingFits(states: seq<Heap>, ops: seq<Op>, given: seq<Option<Block>>, k: nat, b: Block, sz: nat)
    requires IsRun(states, ops, given) && k <= |ops| && b in Outstanding(ops, given, k)
    requires sz <= LARGEST_SUBPAGE_SIZE && Outstanding(ops, given, k)[b] == TypeFor(sz).value
    ensures b.page in states[k].pages
    ensures
      var n := SizeOf(states[k].pages[b.page].blk);
      && AddrOf(states[k], b) % n == 0 && sz <= n
      && b.page <= AddrOf(states[k], b) && AddrOf(states[k], b) + n <= b.page + PAGE_SIZE
  {
    HeapRun(states, ops, given, k);
    var h := states[k];
    assert IsLive(h, b) && PageOk(b.page, h.pages[b.page]);
    BlockInPage(b.page, h.pages[b.page].blk, b.index);
  }

  /** Two blocks outstanding at the same time never overlap. */
  lemma OutstandingApart(states: seq<Heap>, ops: seq<Op>, given: seq<Option<Block>>, k: nat, b: Block, b': Block)
    requires IsRun(states, ops, given) && k <= |ops|
    requires b in Outstanding(ops, given, k) && b' in Outstanding(ops, given, k) && b != b'
    ensures b.page in states[k].pages && b'.page in states[k].pages
    ensures
      var h := states[k];
      || AddrOf(h, b) + SizeOf(h.pages[b.page].blk) <= AddrOf(h, b')
      || AddrOf(h, b') + SizeOf(h.pages[b'.page].blk) <= AddrOf(h, b)
  {
    HeapRun(states, ops, given, k);
    BlocksApart(states[k], b, b');
  }

  /** When everything has been released, every heap page has gone back. */
  lemma NothingOutstanding(states: seq<Heap>, ops: seq<Op>, given: seq<Option<Block>>, k: nat)
    requires IsRun(states, ops, given) && k <= |ops| && Outstanding(ops, given, k) == map[]
    ensures states[k].pages == map[] && states[k].all == []
  {
    HeapRun(states, ops, given, k);
    var h := states[k];
    assert h.all != [] ==> h.all[0] in h.pages;
    forall p
      ensures p !in h.pages
    {
      if p in h.pages { PageHasLive(h, p); }
    }
  }

  lemma PageHasLive(h: Heap, p: nat)
    requires HeapInv(h) && p in h.pages
    ensures exists b :: IsLive(h, b) && b.page == p
  {
    assert PageOk(p, h.pages[p]);
    var n := BlocksPerPage(h.pages[p].blk);
    Pigeonhole(h.pages[p].free, n);
    var i: nat :| i < n && i !in h.pages[p].free;
    assert IsLive(h, Block(p, i));
  }
}
