/** The sub-page allocator as it works in place, proved to do what `Kheap.Malloc` and `Kheap.Free`
    say. */
module KheapTable {
  import opened Common
  import opened Kheap
  import opened KheapSafety
  import opened KheapRefs
  import opened KheapRep
  import opened KheapSteps

  datatype FreeOutcome = NotOurs | Crashed | Freed(back: Option<nat>)

  /** The outcome of an allocation: the block `Malloc` gives, or none because no page has room and no
      page could be had, in which case any page obtained goes back. */
  ghost predicate Served(h: Heap, h': Heap, blk: BlockType, newPage: Option<nat>, ptr: nat, back: Option<nat>) {
    && |h.bySize| == NSIZES
    && if ptr == 0 then
         h' == h && back == newPage && FirstWithRoom(h.pages, h.bySize[blk]).None?
       else
         var (hm, b) := Malloc(h, blk, newPage);
         h' == hm && b.Some? && b.value.page in h'.pages && ptr == AddrOf(h', b.value) && back == None
  }

  /** The pointer is to the start of a block of a heap page. */
  ghost predicate Points(h: Heap, ptr: nat) {
    && PageFrame(ptr) in h.pages
    && (ptr - PageFrame(ptr)) % SizeOf(h.pages[PageFrame(ptr)].blk) == 0
  }

  /** A pointer handed out is to a live block, and so may be freed. */
  lemma ServedIsLive(h: Heap, h': Heap, blk: BlockType, newPage: Option<nat>, ptr: nat, back: Option<nat>)
    requires HeapInv(h) && FreshPage(h, newPage) && Served(h, h', blk, newPage, ptr, back) && ptr != 0
    ensures Points(h', ptr) && IsLive(h', BlockOf(h', ptr)) && h'.pages[PageFrame(ptr)].blk == blk
  {
    MallocKeeps(h, blk, newPage);
    var b := Malloc(h, blk, newPage).1.value;
    assert PageOk(b.page, h'.pages[b.page]);
    BlockOfAddr(h', b);
  }

  /** A block of a heap page, live or free. */
  predicate IsBlock(h: Heap, b: Block) {
    b.page in h.pages && b.index < BlocksPerPage(h.pages[b.page].blk)
  }

  /** The kernel stops at the free of this block. */
  predicate CannotFree(h: Heap, b: Block, canRelease: bool) {
    && |h.bySize| == NSIZES && b.page in h.pages
    && (FirstFree(h.pages[b.page], b.index) || (Free(h, b).1.Some? && !canRelease))
  }

  class Table {
    const pool: Pool
    const refs: array<PageRef>
    const sizebases: array<nat>
    var allbase: nat
    var mem: map<nat, nat>
    ghost var h: Heap
    ghost var refOf: map<nat, nat>

    /** The arrays have their sizes and are different objects. */
    ghost predicate Laid()
      reads pool, pool.inuse, pool.numinuse, pool.hasPage
    {
      && pool.Valid() && refs.Length == TOTAL_REFS && sizebases.Length == NSIZES
      && Apart(pool.inuse, pool.numinuse, pool.hasPage, refs, sizebases)
    }

    static ghost predicate Apart(a: object, b: object, c: object, d: object, e: object) {
      && a != b && a != c && a != d && a != e
      && b != c && b != d && b != e
      && c != d && c != e
      && d != e
    }

    ghost function Value(): Store
      reads `allbase, `mem, refs, sizebases
    {
      Store(refs[..], sizebases[..], allbase, mem)
    }

    /** Every page's reference is in use on an obtained page of references. */
    ghost predicate PoolOk()
      requires pool.Valid()
      reads `refOf, pool, pool.inuse, pool.numinuse, pool.hasPage
    {
      forall p :: p in refOf ==> pool.Usable(refOf[p])
    }

    /** The arrays represent a sound heap. */
    ghost predicate Sound()
      reads `h, `refOf, `allbase, `mem, refs, sizebases
    {
      HeapInv(h) && Rep(Value(), h, refOf)
    }

    ghost predicate Valid()
      reads this, pool, pool.inuse, pool.numinuse, pool.hasPage, refs, sizebases
    {
      Laid() && Sound() && PoolOk()
    }

    constructor ()
      ensures Valid() && h == EmptyHeap() && pool.NoLeak() && !pool.Full()
      ensures fresh(refs) && fresh(sizebases) && fresh(pool.inuse) && fresh(pool.numinuse) && fresh(pool.hasPage)
    {
      pool := new Pool();
      refs := new PageRef[TOTAL_REFS](_ => PageRef(NIL, NIL, 0, INVALID_OFFSET, 0));
      sizebases := new nat[NSIZES](_ => NIL);
      allbase, mem := NIL, map[];
      h, refOf := EmptyHeap(), map[];
      new;
      assert 0 !in pool.Contents();
      EmptyRep(Value());
    }

    /** Records the heap the arrays now represent. */
    ghost method Settle(h': Heap, refOf': map<nat, nat>)
      requires Laid() && HeapInv(h') && Rep(Value(), h', refOf')
      requires forall p :: p in refOf' ==> pool.Usable(refOf'[p])
      modifies `h, `refOf
      ensures Valid() && h == h' && refOf == refOf'
    {
      h, refOf := h', refOf';
    }

    /** The search of `subpage_kmalloc`: the first page of the block size with a free block. */
    method FindRoom(blk: BlockType) returns (r: nat)
      requires Valid()
      ensures
        match FirstWithRoom(h.pages, h.bySize[blk])
        case None => r == NIL
        case Some(page) => page in h.pages && page in refOf && r == refOf[page] && r != NIL
    {
      r := sizebases[blk];
      ghost var rest := h.bySize[blk];
      while r != NIL
        invariant Chain(refs[..], false, refOf, r, rest)
        invariant FirstWithRoom(h.pages, rest) == FirstWithRoom(h.pages, h.bySize[blk])
        invariant forall p :: p in rest ==> p in h.bySize[blk]
        decreases |rest|
      {
        assert rest != [];
        ChainTail(refs[..], false, refOf, r, rest);
        ghost var page := rest[0];
        assert page in h.bySize[blk];
        assert PageRep(refs[r], mem, page, h.pages[page]);
        if refs[r].nfree > 0 {
          return;
        }
        r := refs[r].nextSame;
        rest := rest[1..];
      }
    }

    /** The part of `subpage_kmalloc` that takes the first free block of a page. */
    method TakeBlock(r: nat, ghost page: nat, ghost hp: HeapPage) returns (ptr: nat)
      requires Laid() && r < TOTAL_REFS && PageWhole(page, hp) && PageRep(refs[r], mem, page, hp) && hp.free != []
      modifies refs
      ensures ptr == BlockAddr(page, hp.blk, hp.free[0])
      ensures OnlyPage(old(Value()), Value(), r) && mem == old(mem)
      ensures PageRep(refs[r], mem, page, hp.(free := hp.free[1..]))
    {
      var pr := refs[r];
      PopRep(pr, mem, page, hp);
      var prpage := PageAddr(pr);
      ptr := prpage + pr.freeOff;
      var fl := mem[ptr];
      var nfree := pr.nfree - 1;
      if fl != 0 {
        assert nfree > 0 && fl - prpage < PAGE_SIZE;
        refs[r] := pr.(nfree := nfree, freeOff := fl - prpage);
      } else {
        assert nfree == 0;
        refs[r] := pr.(nfree := nfree, freeOff := INVALID_OFFSET);
      }
      assert refs[r] == Popped(pr, fl);
    }

    /** The loop that threads the free list through a new page. */
    method LinkBlocks(blk: BlockType, page: nat) returns (fl: nat)
      requires page % PAGE_SIZE == 0
      modifies `mem
      ensures fl == BlockAddr(page, blk, BlocksPerPage(blk) - 1)
      ensures forall i: nat :: i < BlocksPerPage(blk) ==> FreshWord(mem, page, blk, i)
      ensures forall a :: a in old(mem) && PageFrame(a) != page ==> a in mem && mem[a] == old(mem)[a]
    {
      fl := page;
      mem := mem[fl := 0];
      var j := 1;
      while j < BlocksPerPage(blk)
        invariant 1 <= j <= BlocksPerPage(blk) && fl == BlockAddr(page, blk, j - 1)
        invariant forall i: nat :: i < j ==> FreshWord(mem, page, blk, i)
        invariant forall a :: a in old(mem) && PageFrame(a) != page ==> a in mem && mem[a] == old(mem)[a]
      {
        BlockInPage(page, blk, j);
        ghost var was := mem;
        fl := BlockAddr(page, blk, j);
        mem := mem[fl := BlockAddr(page, blk, j - 1)];
        forall i: nat | i < j
          ensures FreshWord(mem, page, blk, i)
        {
          FreshWordKept(was, page, blk, i, j, BlockAddr(page, blk, j - 1));
        }
        j := j + 1;
      }
    }

    /** The part of `subpage_kmalloc` that turns a fresh page into heap. */
    method BuildPage(r: nat, blk: BlockType, page: nat)
      requires Laid() && r < TOTAL_REFS && page > 0 && page % PAGE_SIZE == 0
      modifies refs, sizebases, `allbase, `mem
      ensures Laid() && PageAdded(old(Value()), Value(), blk, page, r)
    {
      var fl := LinkBlocks(blk, page);
      refs[r] := PageRef(sizebases[blk], allbase, page + blk, fl - page, BlocksPerPage(blk));
      sizebases[blk] := r;
      allbase := r;
      FreshPageRep(refs[r], mem, page, blk);
    }

    /** `subpage_kmalloc`: takes the first free block of the first page of its size with one, else of a
        new page. `newPage` is what `alloc_kpages` would give, `canGet` whether a page of references
        could be had; `back` is a page obtained and given back for want of a reference. */
    method SubpageKmalloc(sz: nat, newPage: Option<nat>, canGet: bool) returns (ptr: nat, back: Option<nat>)
      requires Valid() && sz <= LARGEST_SUBPAGE_SIZE && FreshPage(h, newPage)
      modifies this, refs, sizebases, pool.inuse, pool.numinuse, pool.hasPage
      ensures Valid()
      ensures Served(old(h), h, TypeFor(sz).value, newPage, ptr, back)
      ensures ptr != 0 ==> Points(h, ptr) && IsLive(h, BlockOf(h, ptr))
      ensures newPage.Some? && canGet && !old(pool.Full()) ==> ptr != 0
      ensures old(pool.NoLeak()) && canGet ==> pool.NoLeak()
    {
      var blk := TypeFor(sz).value;
      ghost var h0 := h;
      ptr := TakeExisting(blk, newPage);
      if ptr != 0 {
        ServedIsLive(h0, h, blk, newPage, ptr, None);
        return ptr, None;
      }
      if newPage.None? {
        return 0, None;
      }
      ghost var h1 := h;
      ptr := NewBlock(blk, newPage.value, canGet);
      back := if ptr == 0 then newPage else None;
      assert Served(h1, h, blk, newPage, ptr, back);
      if ptr != 0 { ServedIsLive(h1, h, blk, newPage, ptr, back); }
    }

    /** A reference for a new page, if one can be had, and the first block of that page. */
    method NewBlock(blk: BlockType, page: nat, canGet: bool) returns (ptr: nat)
      requires Valid() && FreshPage(h, Some(page))
      modifies this, refs, sizebases, pool.inuse, pool.numinuse, pool.hasPage
      ensures Valid()
      ensures
        var (h', b) := Take(AddPage(old(h), blk, page), page);
        if ptr == 0 then h == old(h) else h == h' && ptr == AddrOf(h, b)
      ensures canGet && !old(pool.Full()) ==> ptr != 0
      ensures old(pool.NoLeak()) && canGet ==> pool.NoLeak()
    {
      var ref := pool.Alloc(canGet);
      assert Sound() && PoolOk();
      if ref.None? {
        return 0;
      }
      ptr := Grow(ref.value, blk, page);
    }

    /** A block of a page that has one, 0 if no page of the block size does. */
    method TakeExisting(blk: BlockType, ghost newPage: Option<nat>) returns (ptr: nat)
      requires Valid()
      modifies `h, `refOf, refs
      ensures Valid()
      ensures ptr == 0 ==> h == old(h) && FirstWithRoom(h.pages, h.bySize[blk]).None?
      ensures ptr != 0 ==> Served(old(h), h, blk, newPage, ptr, None)
    {
      var r := FindRoom(blk);
      if r == NIL {
        return 0;
      }
      ptr := TakeFrom(r, FirstWithRoom(h.pages, h.bySize[blk]).value);
    }

    /** Takes the first free block of a heap page. */
    method TakeFrom(r: nat, ghost page: nat) returns (ptr: nat)
      requires Valid() && page in h.pages && h.pages[page].free != [] && r == refOf[page]
      modifies `h, `refOf, refs
      ensures Valid() && h == Take(old(h), page).0 && ptr == AddrOf(h, Take(old(h), page).1) && ptr > 0
    {
      ghost var st := Value();
      WholePages(h);
      assert PageRep(refs[r], mem, page, h.pages[page]);
      ptr := TakeBlock(r, page, h.pages[page]);
      TakeRep(st, Value(), h, refOf, page);
      Settle(Take(h, page).0, refOf);
    }

    /** The tail of `subpage_kmalloc`: a new page and its first block. */
    method Grow(r: nat, blk: BlockType, page: nat) returns (ptr: nat)
      requires Laid() && Sound() && PoolOk() && r < TOTAL_REFS && FreshPage(h, Some(page))
      requires forall p :: p in refOf ==> refOf[p] != r
      requires pool.Usable(r)
      modifies this, refs, sizebases
      ensures Valid()
      ensures
        var (h', b) := Take(AddPage(old(h), blk, page), page);
        h == h' && ptr == AddrOf(h, b) && ptr != 0
    {
      ghost var st := Value();
      BuildPage(r, blk, page);
      ghost var st1 := Value();
      ghost var hp := HeapPage(blk, FreshList(BlocksPerPage(blk)));
      FreshIsWhole(page, blk);
      ptr := TakeBlock(r, page, hp);
      GrowRep(st, st1, Value(), h, refOf, blk, page, r);
      Settle(Take(AddPage(h, blk, page), page).0, refOf[page := r]);
    }

    /** The search of `subpage_kfree`: the reference of the heap page the pointer is on. */
    method FindPage(ptr: nat) returns (r: nat)
      requires Valid()
      ensures PageFrame(ptr) in h.pages <==> r != NIL
      ensures r != NIL ==> PageFrame(ptr) in refOf && r == refOf[PageFrame(ptr)]
    {
      r := allbase;
      ghost var rest, target := h.all, PageFrame(ptr);
      while r != NIL
        invariant Chain(refs[..], true, refOf, r, rest)
        invariant forall p :: p in rest ==> p in h.all
        invariant target in h.all ==> target in rest
        decreases |rest|
      {
        assert rest != [];
        ChainTail(refs[..], true, refOf, r, rest);
        ghost var page := rest[0];
        assert page in h.all;
        assert PageRep(refs[r], mem, page, h.pages[page]) && PageOk(page, h.pages[page]);
        RefTellsPage(refs[r], mem, page, h.pages[page], ptr);
        var prpage := PageAddr(refs[r]);
        assert BlockTypeOf(refs[r]) < NSIZES;
        if prpage <= ptr < prpage + PAGE_SIZE {
          return;
        }
        r := refs[r].nextAll;
        rest := rest[1..];
      }
    }

    /** `fill_deadbeef`. */
    method FillBlock(a: nat, n: nat)
      modifies `mem
      ensures OnlyBlock(old(mem), mem, a, n)
      ensures forall i :: 0 <= i < n / 4 ==> a + 4 * i in mem && mem[a + 4 * i] == 0xdeadbeef
    {
      var i := 0;
      while i < n / 4
        invariant 0 <= i <= n / 4 && OnlyBlock(old(mem), mem, a, n)
        invariant forall j :: 0 <= j < i ==> a + 4 * j in mem && mem[a + 4 * j] == 0xdeadbeef
      {
        mem := mem[a + 4 * i := 0xdeadbeef];
        i := i + 1;
      }
    }

    /** The free list of the page is a loop from block `i` to itself, and that of no page. */
    ghost predicate Spoilt(r: nat, page: nat, hp: HeapPage, i: nat)
      reads `mem, refs
    {
      && r < refs.Length && refs[r].freeOff == i * SizeOf(hp.blk)
      && (exists k: nat :: Looped(mem, page, hp, i, k))
      && forall hp' :: PageOk(page, hp') ==> !PageRep(refs[r], mem, page, hp')
    }

    /** The part of `subpage_kfree` that puts a block in front of its page's free list. The assertion looks
        at the first free block only. */
    method PutBlock(r: nat, a: nat, ghost page: nat, ghost hp: HeapPage, ghost i: nat) returns (ok: bool)
      requires Laid() && r < TOTAL_REFS && PageOk(page, hp) && PageRep(refs[r], mem, page, hp)
      requires i < BlocksPerPage(hp.blk) && a == BlockAddr(page, hp.blk, i)
      modifies refs, `mem
      ensures OnlyPage(old(Value()), Value(), r) && OnlyBlock(old(mem), mem, a, SizeOf(hp.blk))
      ensures ok <==> !FirstFree(hp, i)
      ensures ok ==> refs[r].nfree == |hp.free| + 1
      ensures i !in hp.free ==> PageRep(refs[r], mem, page, hp.(free := [i] + hp.free))
      ensures ok && i in hp.free ==> Spoilt(r, page, hp, i)
    {
      var pr := refs[r];
      var prpage := PageAddr(pr);
      assert prpage == page && BlockTypeOf(pr) == hp.blk;
      HeadIsFirst(pr, mem, page, hp, i);
      FillBlock(a, SizeOf(BlockTypeOf(pr)));
      if pr.freeOff == INVALID_OFFSET {
        mem := mem[a := 0];
      } else {
        mem := mem[a := prpage + pr.freeOff];
        if mem[a] == a {
          return false;
        }
      }
      if i in hp.free {
        SecondFreeBreaks(pr, old(mem), mem, page, hp, i);
      } else {
        PushRep(pr, old(mem), mem, page, hp, i);
      }
      refs[r] := pr.(freeOff := a - prpage, nfree := pr.nfree + 1);
      assert refs[r] == Pushed(pr, i * SizeOf(hp.blk));
      ok := true;
    }

    ghost function Base(all: bool, blk: BlockType): nat
      requires sizebases.Length == NSIZES
      reads sizebases, `allbase
    {
      if all then allbase else sizebases[blk]
    }

    /** One loop of `remove_lists`: follows the links to the reference and redirects the link to it. */
    method Unlink(all: bool, blk: BlockType, r: nat, ghost list: seq<nat>, ghost k: nat)
      requires Laid() && Chain(refs[..], all, refOf, Base(all, blk), list) && Distinct(list)
      requires k < |list| && list[k] in refOf && r == refOf[list[k]]
      requires forall p :: p in refOf ==> refOf[p] < NIL
      requires forall p, q :: p in refOf && q in refOf && refOf[p] == refOf[q] ==> p == q
      modifies refs, sizebases, `allbase
      ensures Unlinked(old(Value()), Value(), all, blk, refOf, list)
      ensures Chain(refs[..], all, refOf, Base(all, blk), Remove(list, list[k]))
    {
      RemoveIsWithout(list, k);
      var prev := NIL;
      var cur := if all then allbase else sizebases[blk];
      ghost var j := 0;
      while cur != r
        invariant 0 <= j <= k && cur == RefAt(refOf, list, j)
        invariant prev == if j == 0 then NIL else RefAt(refOf, list, j - 1)
        decreases k - j
      {
        assert Linked(refs[..], all, refOf, list, j);
        assert j != k;
        prev := cur;
        cur := NextOf(refs[cur], all);
        j := j + 1;
      }
      assert Linked(refs[..], all, refOf, list, j) && Linked(refs[..], all, refOf, list, k);
      assert list[j] == list[k] && j == k;
      assert k > 0 ==> Linked(refs[..], all, refOf, list, k - 1);
      var next := NextOf(refs[r], all);
      if prev == NIL {
        ChainTail(refs[..], all, refOf, Base(all, blk), list);
        assert list[1..] == Without(list, 0);
        if all {
          allbase := next;
        } else {
          sizebases[blk] := next;
        }
      } else {
        ChainWithout(refs[..], all, refOf, Base(all, blk), list, k);
        assert list[k - 1] in list;
        refs[prev] := WithNext(refs[prev], all, next);
      }
    }

    /** `subpage_kfree`. A pointer on no heap page is not ours. Fatal are exactly a pointer into the middle
        of a block, the first free block of its page, and the last free of a page when the pool is in a
        state in which `freepageref` fails. Otherwise the heap is as `Free` says, unless the block was
        free already and its page is kept: then the page's free list is spoilt. */
    method SubpageKfree(ptr: nat) returns (r: FreeOutcome)
      requires Valid()
      modifies this, refs, sizebases, pool.inuse, pool.numinuse
      ensures r.NotOurs? <==> PageFrame(ptr) !in old(h).pages
      ensures r.NotOurs? ==> Valid() && h == old(h)
      ensures PageFrame(ptr) in old(h).pages && !Points(old(h), ptr) ==> r.Crashed?
      ensures Points(old(h), ptr) ==>
        PageFrame(ptr) in old(refOf) && FreedAt(old(h), BlockOf(old(h), ptr), old(refOf)[PageFrame(ptr)], r)
      ensures Points(old(h), ptr) ==>
        (r.Crashed? <==> CannotFree(old(h), BlockOf(old(h), ptr), old(pool.CanRelease(refOf[PageFrame(ptr)]))))
      ensures old(pool.NoLeak()) ==> pool.Valid() && pool.NoLeak()
      ensures old(pool.NoLeak()) && Points(old(h), ptr) ==>
        (r.Crashed? <==> FirstFree(old(h).pages[PageFrame(ptr)], BlockOf(old(h), ptr).index))
    {
      var ref := FindPage(ptr);
      if ref == NIL {
        return NotOurs;
      }
      var blk, aligned := CheckPointer(ref, ptr);
      if !aligned {
        return Crashed;
      }
      r := FreeBlock(ref, ptr, blk, BlockOf(h, ptr));
    }

    /** The check for positioning and alignment of `subpage_kfree`. */
    method CheckPointer(ref: nat, ptr: nat) returns (blk: BlockType, aligned: bool)
      requires Valid() && PageFrame(ptr) in h.pages && PageFrame(ptr) in refOf && ref == refOf[PageFrame(ptr)]
      ensures blk == h.pages[PageFrame(ptr)].blk
      ensures aligned <==> Points(h, ptr)
      ensures aligned ==> IsBlock(h, BlockOf(h, ptr)) && ptr == AddrOf(h, BlockOf(h, ptr))
    {
      ghost var page := PageFrame(ptr);
      ghost var hp := h.pages[page];
      assert PageRep(refs[ref], mem, page, hp) && PageOk(page, hp);
      RefTellsPage(refs[ref], mem, page, hp, ptr);
      var offset := ptr - PageAddr(refs[ref]);
      blk := BlockTypeOf(refs[ref]);
      if offset >= PAGE_SIZE || offset % SizeOf(blk) != 0 {
        return blk, false;
      }
      AlignedBlock(page, blk, ptr);
      aligned := true;
    }

    /** What is left when the free of a block returned: the heap `Free` gives, if the block was live or its
        page goes back; else a page whose free list is a loop. */
    ghost predicate FreedAt(h0: Heap, b: Block, ref: nat, r: FreeOutcome)
      reads this, pool, pool.inuse, pool.numinuse, pool.hasPage, refs, sizebases
    {
      r.Freed? ==>
        && |h0.bySize| == NSIZES && b.page in h0.pages && ref < refs.Length
        && r.back == Free(h0, b).1
        && if IsLive(h0, b) || r.back.Some? then
             Valid() && h == Free(h0, b).0
           else
             Spoilt(ref, b.page, h0.pages[b.page], b.index)
    }

    /** The part of `subpage_kfree` after the block is found. */
    method FreeBlock(ref: nat, ptr: nat, blk: BlockType, ghost b: Block) returns (r: FreeOutcome)
      requires Valid() && IsBlock(h, b) && ptr == AddrOf(h, b) && blk == h.pages[b.page].blk
      requires b.page in refOf && ref == refOf[b.page]
      modifies this, refs, sizebases, pool.inuse, pool.numinuse
      ensures !r.NotOurs? && FreedAt(old(h), b, ref, r)
      ensures r.Crashed? <==> CannotFree(old(h), b, old(pool.CanRelease(ref)))
      ensures old(pool.NoLeak()) ==> pool.Valid() && pool.NoLeak() && old(pool.CanRelease(ref))
    {
      var ok, prpage := PutBack(ref, ptr, b);
      if !ok {
        return Crashed;
      }
      assert refs[ref].nfree <= BlocksPerPage(blk);
      if refs[ref].nfree == BlocksPerPage(blk) {
        ok := ReleasePage(ref, blk, b);
        return if ok then Freed(Some(prpage)) else Crashed;
      }
      if IsLive(h, b) { KeepPage(b); }
      return Freed(None);
    }

    /** The heap after a free that leaves its page with live blocks. */
    ghost method KeepPage(b: Block)
      requires Laid() && HeapInv(h) && PoolOk() && IsLive(h, b) && Rep(Value(), Returned(h, b), refOf)
      requires |h.pages[b.page].free| + 1 < BlocksPerPage(h.pages[b.page].blk)
      modifies `h, `refOf
      ensures Valid() && Free(old(h), b) == (h, None)
    {
      FreeReturns(h, b);
      Settle(Returned(h, b), refOf);
    }

    /** Puts a block back on its page's free list. */
    method PutBack(ref: nat, ptr: nat, ghost b: Block) returns (ok: bool, prpage: nat)
      requires Valid() && IsBlock(h, b) && ptr == AddrOf(h, b) && b.page in refOf && ref == refOf[b.page]
      modifies refs, `mem
      ensures prpage == b.page && (ok <==> !FirstFree(h.pages[b.page], b.index))
      ensures ref < TOTAL_REFS && Rest(Value(), h, refOf, b.page)
      ensures ok ==> refs[ref].nfree == |h.pages[b.page].free| + 1 <= BlocksPerPage(h.pages[b.page].blk)
      ensures IsLive(h, b) ==> Rep(Value(), Returned(h, b), refOf)
      ensures ok && !IsLive(h, b) ==> Spoilt(ref, b.page, h.pages[b.page], b.index)
    {
      ghost var hp := h.pages[b.page];
      ghost var st := Value();
      assert PageRep(refs[ref], mem, b.page, hp) && PageOk(b.page, hp);
      RefTellsPage(refs[ref], mem, b.page, hp, ptr);
      prpage := PageAddr(refs[ref]);
      ok := PutBlock(ref, ptr, b.page, hp, b.index);
      RestKept(st, Value(), h, refOf, b);
      if IsLive(h, b) { FreeRep(st, Value(), h, refOf, b); }
    }

    /** `remove_lists`. */
    method RemoveLists(r: nat, blk: BlockType, ghost page: nat)
      requires Laid() && ListsOk(h) && Rest(Value(), h, refOf, page) && r == refOf[page] && blk == h.pages[page].blk
      modifies refs, sizebases, `allbase
      ensures Rep(Value(), Dropped(h, page), refOf - {page})
    {
      ghost var st := Value();
      ghost var i, k := Position(h.bySize[blk], page), Position(h.all, page);
      Unlink(false, blk, r, h.bySize[blk], i);
      ghost var st1 := Value();
      AllChainKept(st, st1, blk, refOf, h.bySize[blk], h.all);
      Unlink(true, blk, r, h.all, k);
      DropRep(st, st1, Value(), h, refOf, page);
    }

    /** `remove_lists` and `freepageref` for a page whose count of free blocks is full. */
    method ReleasePage(r: nat, blk: BlockType, ghost b: Block) returns (ok: bool)
      requires Laid() && HeapInv(h) && PoolOk() && Rest(Value(), h, refOf, b.page) && r == refOf[b.page]
      requires h.pages[b.page].blk == blk && |h.pages[b.page].free| + 1 == BlocksPerPage(blk)
      modifies this, refs, sizebases, pool.inuse, pool.numinuse
      ensures ok ==> Valid() && Free(old(h), b) == (h, Some(b.page))
      ensures ok <==> old(pool.CanRelease(r))
      ensures old(pool.NoLeak()) ==> ok && pool.NoLeak()
    {
      DropPage(r, blk, b);
      ok := FreeRef(r);
    }

    /** Gives up the reference of a page no longer on the heap. */
    method FreeRef(r: nat) returns (ok: bool)
      requires Valid() && r < TOTAL_REFS && forall p :: p in refOf ==> refOf[p] != r
      modifies pool.inuse, pool.numinuse
      ensures pool.Valid() && (ok ==> Valid())
      ensures ok <==> old(pool.CanRelease(r))
      ensures old(pool.NoLeak()) ==> pool.NoLeak()
    {
      ok := pool.Release(r);
      assert Sound();
    }

    /** Takes a page off the heap. */
    method DropPage(r: nat, blk: BlockType, ghost b: Block)
      requires Laid() && HeapInv(h) && PoolOk() && Rest(Value(), h, refOf, b.page) && r == refOf[b.page]
      requires h.pages[b.page].blk == blk && |h.pages[b.page].free| + 1 == BlocksPerPage(blk)
      modifies this, refs, sizebases
      ensures Valid() && Free(old(h), b) == (h, Some(b.page)) && pool.Usable(r)
      ensures forall p :: p in refOf ==> refOf[p] != r
    {
      RemoveLists(r, blk, b.page);
      ForgetPage(b);
    }

    /** The heap after a free that gives its page back. */
    ghost method ForgetPage(b: Block)
      requires Laid() && HeapInv(h) && PoolOk() && b.page in h.pages && RefsOk(refOf, h.pages)
      requires Rep(Value(), Dropped(h, b.page), refOf - {b.page})
      requires |h.pages[b.page].free| + 1 == BlocksPerPage(h.pages[b.page].blk)
      modifies `h, `refOf
      ensures Valid() && Free(old(h), b) == (h, Some(b.page)) && pool.Usable(old(refOf)[b.page])
      ensures forall p :: p in refOf ==> refOf[p] != old(refOf)[b.page]
    {
      FreeDrops(h, b);
      Settle(Dropped(h, b.page), refOf - {b.page});
    }

    /** `kmalloc`. A request too large for the sub-page allocator asks `alloc_kpages` for `pages` pages,
        which gives address `kpages`, 0 if none; `back` is as for `SubpageKmalloc`. */
    method Kmalloc(sz: nat, newPage: Option<nat>, canGet: bool, kpages: nat)
      returns (ptr: nat, back: Option<nat>, pages: nat)
      requires Valid() && FreshPage(h, newPage)
      modifies this, refs, sizebases, pool.inuse, pool.numinuse, pool.hasPage
      ensures Valid()
      ensures sz >= LARGEST_SUBPAGE_SIZE ==>
        && h == old(h) && ptr == kpages && back == None
        && (pages - 1) * PAGE_SIZE < sz <= pages * PAGE_SIZE
      ensures sz < LARGEST_SUBPAGE_SIZE ==>
        && Served(old(h), h, TypeFor(sz).value, newPage, ptr, back) && pages == 0
        && (ptr != 0 ==> Points(h, ptr) && IsLive(h, BlockOf(h, ptr)))
    {
      if sz >= LARGEST_SUBPAGE_SIZE {
        return kpages, None, (sz + PAGE_SIZE - 1) / PAGE_SIZE;
      }
      ptr, back := SubpageKmalloc(sz, newPage, canGet);
      pages := 0;
    }

    /** `kfree`: what goes to `free_kpages` is the page a last block was on, or the pointer itself when it
        is on no heap page. */
    method Kfree(ptr: nat) returns (r: FreeOutcome)
      requires Valid()
      modifies this, refs, sizebases, pool.inuse, pool.numinuse
      ensures ptr == 0 ==> r == Freed(None) && Valid() && h == old(h)
      ensures ptr != 0 && PageFrame(ptr) !in old(h).pages ==>
        Valid() && h == old(h) && r == if ptr % PAGE_SIZE == 0 then Freed(Some(ptr)) else Crashed
      ensures ptr != 0 && PageFrame(ptr) in old(h).pages && !Points(old(h), ptr) ==> r.Crashed?
      ensures ptr != 0 && Points(old(h), ptr) ==>
        && PageFrame(ptr) in old(refOf) && FreedAt(old(h), BlockOf(old(h), ptr), old(refOf)[PageFrame(ptr)], r)
        && (r.Crashed? <==> CannotFree(old(h), BlockOf(old(h), ptr), old(pool.CanRelease(refOf[PageFrame(ptr)]))))
      ensures old(pool.NoLeak()) ==> pool.Valid() && pool.NoLeak()
      ensures old(pool.NoLeak()) && Points(old(h), ptr) ==>
        (r.Crashed? <==> FirstFree(old(h).pages[PageFrame(ptr)], BlockOf(old(h), ptr).index))
    {
      if ptr == 0 {
        assert 0 !in h.pages;
        return Freed(None);
      }
      r := SubpageKfree(ptr);
      if r.NotOurs? {
        r := if ptr % PAGE_SIZE == 0 then Freed(Some(ptr)) else Crashed;
      }
    }

    /** A client writes a word of a block it holds: the heap is not disturbed. */
    method OwnerStore(ghost b: Block, a: nat, v: nat)
      requires Valid() && IsLive(h, b) && AddrOf(h, b) <= a < AddrOf(h, b) + SizeOf(h.pages[b.page].blk)
      modifies `mem
      ensures Valid() && mem == old(mem)[a := v]
    {
      OwnerWrite(Value(), h, refOf, b, a, v);
      mem := mem[a := v];
    }

    /** `checksubpage` finds nothing wrong with a heap page. */
    method CheckSubpage(r: nat, ghost page: nat) returns (ok: bool)
      requires Valid() && page in h.pages && r == refOf[page]
      ensures ok
    {
      ghost var hp := h.pages[page];
      var pr := refs[r];
      assert PageRep(pr, mem, page, hp) && PageOk(page, hp);
      RefTellsPage(pr, mem, page, hp, page);
      if pr.freeOff == INVALID_OFFSET {
        if hp.free != [] { BlockInPage(page, hp.blk, hp.free[0]); }
        return pr.nfree == 0;
      }
      var prpage, blk := PageAddr(pr), BlockTypeOf(pr);
      ok := WalkFree(prpage, blk, prpage + pr.freeOff, pr.nfree, hp.free);
      BlockInPage(page, hp.blk, hp.free[0]);
      MulMod(hp.free[0], SizeOf(blk));
      ok := ok && pr.freeOff < PAGE_SIZE && pr.freeOff % SizeOf(blk) == 0;
    }

    /** The loop of `checksubpage` along the free list. */
    method WalkFree(page: nat, blk: BlockType, first: nat, nfree: nat, ghost free: seq<nat>) returns (ok: bool)
      requires FreeList(mem, page, blk, free) && first == Link(page, blk, free, 0) && nfree == |free|
      requires page > 0 && page % PAGE_SIZE == 0 && Distinct(free)
      requires forall k :: 0 <= k < |free| ==> free[k] < BlocksPerPage(blk)
      ensures ok
    {
      var fl, n := first, 0;
      while fl != 0
        invariant 0 <= n <= |free| && fl == Link(page, blk, free, n)
        decreases |free| - n
      {
        assert FreeWord(mem, page, blk, free, n);
        BlockInPage(page, blk, free[n]);
        MulMod(free[n], SizeOf(blk));
        if n + 1 < |free| { Outside(page, blk, free[n], free[n + 1]); }
        if !(page <= fl < page + PAGE_SIZE && (fl - page) % SizeOf(blk) == 0 && mem[fl] != fl) {
          return false;
        }
        fl := mem[fl];
        n := n + 1;
      }
      return n == nfree;
    }
  }
}
