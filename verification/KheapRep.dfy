/** How the page references, the list heads and the words inside free blocks represent a heap. */
module KheapRep {
  import opened Common
  import opened Kheap
  import opened KheapRefs

  /** End of a list of page references. */
  const NIL: nat := TOTAL_REFS

  const INVALID_OFFSET: nat := 0xffff

  datatype PageRef = PageRef(nextSame: nat, nextAll: nat, pab: nat, freeOff: nat, nfree: nat)

  /** `PR_PAGEADDR` and `PR_BLOCKTYPE`. */
  function PageAddr(pr: PageRef): nat { PageFrame(pr.pab) }

  function BlockTypeOf(pr: PageRef): nat { pr.pab % PAGE_SIZE }

  /** Successor on the list of all pages, or on the list of pages of one block size. */
  function NextOf(pr: PageRef, all: bool): nat {
    if all then pr.nextAll else pr.nextSame
  }

  function WithNext(pr: PageRef, all: bool, n: nat): PageRef {
    if all then pr.(nextAll := n) else pr.(nextSame := n)
  }

  /** The allocator's memory: the references, the list heads, and the first word of every free block. */
  datatype Store = Store(refs: seq<PageRef>, bases: seq<nat>, all: nat, mem: map<nat, nat>)

  // -------------------------------------------------------------- representation

  /** What the word before position `k` of the free list points at. */
  function Link(page: nat, blk: BlockType, free: seq<nat>, k: nat): nat {
    if k < |free| then BlockAddr(page, blk, free[k]) else 0
  }

  /** The first word of the free block at `k` holds the address of the next one. */
  ghost predicate FreeWord(mem: map<nat, nat>, page: nat, blk: BlockType, free: seq<nat>, k: nat) {
    && k < |free| && BlockAddr(page, blk, free[k]) in mem
    && mem[BlockAddr(page, blk, free[k])] == Link(page, blk, free, k + 1)
  }

  ghost predicate FreeList(mem: map<nat, nat>, page: nat, blk: BlockType, free: seq<nat>) {
    forall k: nat :: k < |free| ==> FreeWord(mem, page, blk, free, k)
  }

  ghost predicate PageRep(pr: PageRef, mem: map<nat, nat>, page: nat, hp: HeapPage) {
    && pr.pab == page + hp.blk
    && pr.nfree == |hp.free|
    && pr.freeOff == (if hp.free == [] then INVALID_OFFSET else hp.free[0] * SizeOf(hp.blk))
    && FreeList(mem, page, hp.blk, hp.free)
  }

  ghost predicate RefsOk(refOf: map<nat, nat>, pages: map<nat, HeapPage>) {
    && (forall p :: p in refOf <==> p in pages)
    && (forall p :: p in refOf ==> refOf[p] < TOTAL_REFS)
    && (forall p, q :: p in refOf && q in refOf && refOf[p] == refOf[q] ==> p == q)
  }

  function RefAt(refOf: map<nat, nat>, list: seq<nat>, i: nat): nat {
    if i < |list| && list[i] in refOf then refOf[list[i]] else NIL
  }

  /** The page at `i` has a reference, and that reference leads to the next page's. */
  ghost predicate Linked(refs: seq<PageRef>, all: bool, refOf: map<nat, nat>, list: seq<nat>, i: nat) {
    && i < |list| && list[i] in refOf && refOf[list[i]] < |refs|
    && NextOf(refs[refOf[list[i]]], all) == RefAt(refOf, list, i + 1)
  }

  /** Following the links from `base` visits the references of the listed pages in order. */
  ghost predicate Chain(refs: seq<PageRef>, all: bool, refOf: map<nat, nat>, base: nat, list: seq<nat>) {
    && base == RefAt(refOf, list, 0)
    && forall i: nat :: i < |list| ==> Linked(refs, all, refOf, list, i)
  }

  ghost predicate PagesRep(st: Store, pages: map<nat, HeapPage>, refOf: map<nat, nat>) {
    && |st.refs| == TOTAL_REFS && RefsOk(refOf, pages)
    && forall p :: p in pages ==> PageRep(st.refs[refOf[p]], st.mem, p, pages[p])
  }

  ghost predicate ListsRep(st: Store, h: Heap, refOf: map<nat, nat>) {
    && |st.refs| == TOTAL_REFS && |st.bases| == NSIZES && |h.bySize| == NSIZES
    && (forall b: BlockType :: Chain(st.refs, false, refOf, st.bases[b], h.bySize[b]))
    && Chain(st.refs, true, refOf, st.all, h.all)
  }

  ghost predicate Rep(st: Store, h: Heap, refOf: map<nat, nat>) {
    PagesRep(st, h.pages, refOf) && ListsRep(st, h, refOf)
  }

  // ---------------------------------------------------------------- block addresses

  /** The block at an address on a heap page. */
  function BlockOf(h: Heap, ptr: nat): Block
    requires PageFrame(ptr) in h.pages
  {
    Block(PageFrame(ptr), (ptr - PageFrame(ptr)) / SizeOf(h.pages[PageFrame(ptr)].blk))
  }

  /** The address of a block gives the block back. */
  lemma BlockOfAddr(h: Heap, b: Block)
    requires b.page in h.pages && b.page % PAGE_SIZE == 0 && b.index < BlocksPerPage(h.pages[b.page].blk)
    ensures PageFrame(AddrOf(h, b)) == b.page && BlockOf(h, AddrOf(h, b)) == b
    ensures (AddrOf(h, b) - b.page) % SizeOf(h.pages[b.page].blk) == 0
  {
    var n := SizeOf(h.pages[b.page].blk);
    BlockInPage(b.page, h.pages[b.page].blk, b.index);
    MulMod(b.index, n);
    DivMul(b.index, n);
  }

  lemma DivMul(k: nat, n: nat)
    requires n > 0
    ensures k * n / n == k
  {
    MulMod(k, n);
    var q := k * n / n;
    assert k * n == q * n;
    if q < k {
      MulMono(q, k, n);
    } else if k < q {
      MulMono(k, q, n);
    }
  }

  lemma DivLess(x: nat, n: nat, m: nat)
    requires n > 0 && x < m * n
    ensures x / n < m
  {
    var i := x / n;
    assert x == i * n + x % n;
    assert i * n == m * n + (i - m) * n;
    assert i >= m ==> (i - m) * n >= 0;
  }

  lemma AlignedBlock(page: nat, blk: BlockType, ptr: nat)
    requires page % PAGE_SIZE == 0 && page <= ptr < page + PAGE_SIZE && (ptr - page) % SizeOf(blk) == 0
    ensures PageFrame(ptr) == page
    ensures (ptr - page) / SizeOf(blk) < BlocksPerPage(blk)
    ensures BlockAddr(page, blk, (ptr - page) / SizeOf(blk)) == ptr
  {
    var n, i := SizeOf(blk), (ptr - page) / SizeOf(blk);
    assert ptr - page == i * n;
    DivLess(ptr - page, n, BlocksPerPage(blk));
  }

  // ------------------------------------------------------------------ free lists

  /** Changing a word outside the page keeps its free list. */
  lemma FreeListKept(mem: map<nat, nat>, mem': map<nat, nat>, page: nat, hp: HeapPage)
    requires FreeList(mem, page, hp.blk, hp.free) && page % PAGE_SIZE == 0
    requires forall k :: 0 <= k < |hp.free| ==> hp.free[k] < BlocksPerPage(hp.blk)
    requires forall a :: a in mem && PageFrame(a) == page ==> a in mem' && mem'[a] == mem[a]
    ensures FreeList(mem', page, hp.blk, hp.free)
  {
    forall k: nat | k < |hp.free|
      ensures FreeWord(mem', page, hp.blk, hp.free, k)
    {
      assert FreeWord(mem, page, hp.blk, hp.free, k);
      BlockInPage(page, hp.blk, hp.free[k]);
    }
  }

  /** Without its first block the rest of the list is still linked. */
  lemma FreeListTail(mem: map<nat, nat>, page: nat, blk: BlockType, free: seq<nat>)
    requires FreeList(mem, page, blk, free) && free != []
    ensures FreeList(mem, page, blk, free[1..])
  {
    forall k: nat | k < |free[1..]|
      ensures FreeWord(mem, page, blk, free[1..], k)
    {
      assert FreeWord(mem, page, blk, free, k + 1);
      assert Link(page, blk, free[1..], k + 1) == Link(page, blk, free, k + 2);
    }
  }

  /** A block linked in front of the list. */
  lemma FreeListCons(mem: map<nat, nat>, mem': map<nat, nat>, page: nat, hp: HeapPage, i: nat)
    requires FreeList(mem, page, hp.blk, hp.free) && page % PAGE_SIZE == 0
    requires i < BlocksPerPage(hp.blk) && i !in hp.free
    requires forall k :: 0 <= k < |hp.free| ==> hp.free[k] < BlocksPerPage(hp.blk)
    requires
      var a := BlockAddr(page, hp.blk, i);
      && a in mem' && mem'[a] == Link(page, hp.blk, hp.free, 0)
      && forall x :: x in mem && !(a <= x < a + SizeOf(hp.blk)) ==> x in mem' && mem'[x] == mem[x]
    ensures FreeList(mem', page, hp.blk, [i] + hp.free)
  {
    var blk, free' := hp.blk, [i] + hp.free;
    forall k: nat | k < |free'|
      ensures FreeWord(mem', page, blk, free', k)
    {
      assert Link(page, blk, free', k + 1) == Link(page, blk, hp.free, k);
      if k > 0 {
        assert FreeWord(mem, page, blk, hp.free, k - 1);
        Outside(page, blk, i, hp.free[k - 1]);
      }
    }
  }

  /** The first word of a block lies outside every other block of its page. */
  lemma Outside(page: nat, blk: BlockType, i: nat, j: nat)
    requires i != j
    ensures !(BlockAddr(page, blk, i) <= BlockAddr(page, blk, j) < BlockAddr(page, blk, i) + SizeOf(blk))
  {
    if i < j { MulMono(i, j, SizeOf(blk)); } else { MulMono(j, i, SizeOf(blk)); }
  }

  /** The first word of block `i` of a fresh page leads to the block before it. */
  ghost predicate FreshWord(mem: map<nat, nat>, page: nat, blk: BlockType, i: nat) {
    && BlockAddr(page, blk, i) in mem
    && mem[BlockAddr(page, blk, i)] == if i == 0 then 0 else BlockAddr(page, blk, i - 1)
  }

  lemma FreshWordKept(mem: map<nat, nat>, page: nat, blk: BlockType, i: nat, j: nat, v: nat)
    requires FreshWord(mem, page, blk, i) && i < j
    ensures FreshWord(mem[BlockAddr(page, blk, j) := v], page, blk, i)
  {
    MulMono(i, j, SizeOf(blk));
  }

  /** The free list the page-building loop leaves. */
  lemma FreeListFresh(mem: map<nat, nat>, page: nat, blk: BlockType)
    requires forall i: nat :: i < BlocksPerPage(blk) ==> FreshWord(mem, page, blk, i)
    ensures FreeList(mem, page, blk, FreshList(BlocksPerPage(blk)))
  {
    var free := FreshList(BlocksPerPage(blk));
    forall k: nat | k < |free|
      ensures FreeWord(mem, page, blk, free, k)
    {
      assert free[k] == |free| - 1 - k;
      assert FreshWord(mem, page, blk, free[k]);
    }
  }

  lemma FreshPageRep(pr: PageRef, mem: map<nat, nat>, page: nat, blk: BlockType)
    requires forall i: nat :: i < BlocksPerPage(blk) ==> FreshWord(mem, page, blk, i)
    requires pr.pab == page + blk && pr.nfree == BlocksPerPage(blk)
    requires page + pr.freeOff == BlockAddr(page, blk, BlocksPerPage(blk) - 1)
    ensures PageRep(pr, mem, page, HeapPage(blk, FreshList(BlocksPerPage(blk))))
  {
    FreeListFresh(mem, page, blk);
    assert FreshList(BlocksPerPage(blk))[0] == BlocksPerPage(blk) - 1;
  }

  /** The reference of a page whose first free block is taken. */
  function Popped(pr: PageRef, fl: nat): PageRef
    requires pr.nfree > 0 && (fl == 0 || PageAddr(pr) <= fl)
  {
    pr.(nfree := pr.nfree - 1, freeOff := if fl == 0 then INVALID_OFFSET else fl - PageAddr(pr))
  }

  /** The reference and the word in the first free block say where the rest of the free list is, and
      the assertions on the way hold. */
  lemma PopRep(pr: PageRef, mem: map<nat, nat>, page: nat, hp: HeapPage)
    requires PageRep(pr, mem, page, hp) && hp.free != [] && page > 0 && page % PAGE_SIZE == 0
    requires forall k :: 0 <= k < |hp.free| ==> hp.free[k] < BlocksPerPage(hp.blk)
    ensures PageAddr(pr) == page && pr.freeOff < PAGE_SIZE && pr.nfree > 0
    ensures page + pr.freeOff == BlockAddr(page, hp.blk, hp.free[0]) && page + pr.freeOff in mem
    ensures
      var fl := mem[page + pr.freeOff];
      && (fl != 0 ==> pr.nfree > 1 && page <= fl < page + PAGE_SIZE)
      && (fl == 0 ==> pr.nfree == 1)
      && PageRep(Popped(pr, fl), mem, page, hp.(free := hp.free[1..]))
  {
    BlockInPage(page, hp.blk, hp.free[0]);
    assert FreeWord(mem, page, hp.blk, hp.free, 0);
    if |hp.free| > 1 { BlockInPage(page, hp.blk, hp.free[1]); }
    FreeListTail(mem, page, hp.blk, hp.free);
  }

  // ----------------------------------------------------------------------- chains

  /** Changing references that are not on a chain, or only their other fields, keeps the chain. */
  lemma ChainKept(refs: seq<PageRef>, refs': seq<PageRef>, all: bool, refOf: map<nat, nat>, refOf': map<nat, nat>,
                  base: nat, list: seq<nat>)
    requires Chain(refs, all, refOf, base, list) && |refs'| == |refs|
    requires forall p :: p in list && p in refOf ==> p in refOf' && refOf'[p] == refOf[p]
    requires forall p :: p in list && p in refOf && refOf[p] < |refs| ==>
      NextOf(refs'[refOf[p]], all) == NextOf(refs[refOf[p]], all)
    ensures Chain(refs', all, refOf', base, list)
  {
    assert list != [] ==> Linked(refs, all, refOf, list, 0);
    forall i: nat | i < |list|
      ensures Linked(refs', all, refOf', list, i)
    {
      assert Linked(refs, all, refOf, list, i);
      assert i + 1 < |list| ==> Linked(refs, all, refOf, list, i + 1);
    }
  }

  /** A page put in front of the list. */
  lemma ChainCons(refs: seq<PageRef>, all: bool, refOf: map<nat, nat>, base: nat, list: seq<nat>, page: nat)
    requires Chain(refs, all, refOf, base, list)
    requires page in refOf && refOf[page] < |refs| && NextOf(refs[refOf[page]], all) == base
    ensures Chain(refs, all, refOf, refOf[page], [page] + list)
  {
    var list' := [page] + list;
    forall i: nat | i < |list'|
      ensures Linked(refs, all, refOf, list', i)
    {
      assert RefAt(refOf, list', i + 1) == RefAt(refOf, list, i);
      assert i > 0 ==> Linked(refs, all, refOf, list, i - 1);
    }
  }

  lemma ChainTail(refs: seq<PageRef>, all: bool, refOf: map<nat, nat>, base: nat, list: seq<nat>)
    requires Chain(refs, all, refOf, base, list) && list != []
    ensures Linked(refs, all, refOf, list, 0)
    ensures Chain(refs, all, refOf, NextOf(refs[refOf[list[0]]], all), list[1..])
  {
    var list' := list[1..];
    assert Linked(refs, all, refOf, list, 0);
    forall i: nat | i < |list'|
      ensures Linked(refs, all, refOf, list', i)
    {
      assert Linked(refs, all, refOf, list, i + 1);
      assert RefAt(refOf, list', i + 1) == RefAt(refOf, list, i + 2);
    }
  }

  lemma RefAtWithout(refOf: map<nat, nat>, list: seq<nat>, k: nat, i: nat)
    requires k < |list|
    ensures RefAt(refOf, Without(list, k), i) == RefAt(refOf, list, if i < k then i else i + 1)
  {
  }

  /** Redirecting the predecessor takes the page at `k` off the chain. */
  lemma ChainWithout(refs: seq<PageRef>, all: bool, refOf: map<nat, nat>, base: nat, list: seq<nat>, k: nat)
    requires Chain(refs, all, refOf, base, list) && 0 < k < |list| && Distinct(list)
    requires forall p, q :: p in refOf && q in refOf && refOf[p] == refOf[q] ==> p == q
    ensures Linked(refs, all, refOf, list, k - 1) && Linked(refs, all, refOf, list, k)
    ensures
      var prev, r := refOf[list[k - 1]], refOf[list[k]];
      Chain(refs[prev := WithNext(refs[prev], all, NextOf(refs[r], all))], all, refOf, base, Without(list, k))
  {
    assert Linked(refs, all, refOf, list, k - 1) && Linked(refs, all, refOf, list, k);
    var prev, r := refOf[list[k - 1]], refOf[list[k]];
    var refs' := refs[prev := WithNext(refs[prev], all, NextOf(refs[r], all))];
    var list' := Without(list, k);
    forall i: nat | i < |list'|
      ensures Linked(refs', all, refOf, list', i)
    {
      var j := if i < k then i else i + 1;
      assert Linked(refs, all, refOf, list, j);
      RefAtWithout(refOf, list, k, i + 1);
      assert i != k - 1 ==> list[j] != list[k - 1];
    }
    RefAtWithout(refOf, list, k, 0);
  }

  /** Removing the first occurrence is leaving its position out. */
  lemma {:induction false} RemoveIsWithout(s: seq<nat>, k: nat)
    requires k < |s| && Distinct(s)
    ensures Remove(s, s[k]) == Without(s, k)
  {
    if k == 0 {
      assert s[1..] == Without(s, 0);
    } else {
      RemoveIsWithout(s[1..], k - 1);
      assert s[1..][k - 1] == s[k];
      assert [s[0]] + Without(s[1..], k - 1) == Without(s, k);
    }
  }
}
