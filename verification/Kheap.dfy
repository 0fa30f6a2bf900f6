/** The sub-page allocator: heap pages cut into equal blocks, one free list per page, one list of
    pages per block size and one of all pages. */
module Kheap {
  import opened Common

  const NSIZES: nat := 8
  const SIZES: seq<nat> := [16, 32, 64, 128, 256, 512, 1024, 2048]
  const LARGEST_SUBPAGE_SIZE: nat := 2048

  type BlockType = b: nat | b < NSIZES

  function SizeOf(blk: BlockType): (n: nat)
    ensures n >= 16 && PAGE_SIZE % n == 0
  {
    SIZES[blk]
  }

  function BlocksPerPage(blk: BlockType): (n: nat)
    ensures n >= 2 && n * SizeOf(blk) == PAGE_SIZE
  {
    assert blk == 0 || blk == 1 || blk == 2 || blk == 3 || blk == 4 || blk == 5 || blk == 6 || blk == 7;
    PAGE_SIZE / SIZES[blk]
  }

  /** `blocktype`: the smallest block size that fits; larger requests panic. */
  function TypeFor(sz: nat): (r: Option<BlockType>)
    ensures r.Some? <==> sz <= LARGEST_SUBPAGE_SIZE
    ensures r.Some? ==> sz <= SizeOf(r.value) && forall b: BlockType :: b < r.value ==> SizeOf(b) < sz
  {
    if sz <= 16 then Some(0)
    else if sz <= 32 then Some(1)
    else if sz <= 64 then Some(2)
    else if sz <= 128 then Some(3)
    else if sz <= 256 then Some(4)
    else if sz <= 512 then Some(5)
    else if sz <= 1024 then Some(6)
    else if sz <= 2048 then Some(7)
    else None
  }

  /** A heap page: its block type and the numbers of its free blocks in list order. */
  datatype HeapPage = HeapPage(blk: BlockType, free: seq<nat>)

  /** The heap: its pages by address, and the page lists in order. */
  datatype Heap = Heap(pages: map<nat, HeapPage>, bySize: seq<seq<nat>>, all: seq<nat>)

  /** Address of block `i` of a page. */
  function BlockAddr(page: nat, blk: BlockType, i: nat): nat {
    page + i * SizeOf(blk)
  }

  // ------------------------------------------------------------------- invariant

  ghost predicate PageOk(page: nat, hp: HeapPage) {
    && page > 0 && page % PAGE_SIZE == 0
    && Distinct(hp.free)
    && (forall k :: 0 <= k < |hp.free| ==> hp.free[k] < BlocksPerPage(hp.blk))
    && |hp.free| < BlocksPerPage(hp.blk)
  }

  /** The list holds each page of the block type once. */
  ghost predicate Listed(pages: map<nat, HeapPage>, list: seq<nat>, b: BlockType) {
    && Distinct(list)
    && forall p :: p in list <==> p in pages && pages[p].blk == b
  }

  ghost predicate ListsOk(h: Heap) {
    && |h.bySize| == NSIZES
    && Distinct(h.all)
    && (forall p :: p in h.all <==> p in h.pages)
    && forall b: BlockType :: Listed(h.pages, h.bySize[b], b)
  }

  ghost predicate HeapInv(h: Heap) {
    && ListsOk(h)
    && forall p :: p in h.pages ==> PageOk(p, h.pages[p])
  }

  /** A block handed out and not yet given back. */
  datatype Block = Block(page: nat, index: nat)

  predicate IsLive(h: Heap, b: Block) {
    b.page in h.pages && b.index < BlocksPerPage(h.pages[b.page].blk) && b.index !in h.pages[b.page].free
  }

  function AddrOf(h: Heap, b: Block): nat
    requires b.page in h.pages
  {
    BlockAddr(b.page, h.pages[b.page].blk, b.index)
  }

  // ------------------------------------------------------------------- operations

  ghost predicate NoRoom(pages: map<nat, HeapPage>, list: seq<nat>) {
    forall p :: p in list && p in pages ==> pages[p].free == []
  }

  /** First page in the list with a free block. */
  function FirstWithRoom(pages: map<nat, HeapPage>, list: seq<nat>): (r: Option<nat>)
    ensures r.Some? ==> r.value in list && r.value in pages && pages[r.value].free != []
    ensures r.Some? ==> exists k :: 0 <= k < |list| && list[k] == r.value && NoRoom(pages, list[..k])
    ensures r.None? <==> NoRoom(pages, list)
  {
    if list == [] then None
    else if list[0] in pages && pages[list[0]].free != [] then Some(list[0])
    else
      var r := FirstWithRoom(pages, list[1..]);
      assert r.Some? ==> exists k :: 0 <= k < |list| && list[k] == r.value && NoRoom(pages, list[..k]) by {
        if r.Some? {
          var k :| 0 <= k < |list[1..]| && list[1..][k] == r.value && NoRoom(pages, list[1..][..k]);
          assert list[..k + 1] == [list[0]] + list[1..][..k];
          assert list[k + 1] == r.value;
        }
      }
      r
  }

  /** The free list of a new page: last block first. */
  function FreshList(n: nat): (s: seq<nat>)
    ensures |s| == n
    ensures forall k :: 0 <= k < n ==> s[k] == n - 1 - k
  {
    if n == 0 then [] else [n - 1] + FreshList(n - 1)
  }

  /** A new page at the front of both its lists. */
  function AddPage(h: Heap, blk: BlockType, page: nat): Heap
    requires |h.bySize| == NSIZES
  {
    Heap(h.pages[page := HeapPage(blk, FreshList(BlocksPerPage(blk)))],
         h.bySize[blk := [page] + h.bySize[blk]],
         [page] + h.all)
  }

  /** Takes the first free block of a page. */
  function Take(h: Heap, page: nat): (r: (Heap, Block))
    requires page in h.pages && h.pages[page].free != []
  {
    var hp := h.pages[page];
    (h.(pages := h.pages[page := hp.(free := hp.free[1..])]), Block(page, hp.free[0]))
  }

  /** `subpage_kmalloc`. `newPage` is the page `alloc_kpages` would give, if it gives one and a
      pageref can be had for it. */
  function Malloc(h: Heap, blk: BlockType, newPage: Option<nat>): (Heap, Option<Block>)
    requires |h.bySize| == NSIZES
  {
    match FirstWithRoom(h.pages, h.bySize[blk])
    case Some(page) =>
      var (h', b) := Take(h, page);
      (h', Some(b))
    case None =>
      match newPage
      case None => (h, None)
      case Some(page) =>
        var (h', b) := Take(AddPage(h, blk, page), page);
        (h', Some(b))
  }

  function Remove(s: seq<nat>, x: nat): (r: seq<nat>) {
    if s == [] then []
    else if s[0] == x then s[1..]
    else [s[0]] + Remove(s[1..], x)
  }

  /** `subpage_kfree` of a block on a heap page: the page goes back when all its blocks are free. */
  function Free(h: Heap, b: Block): (r: (Heap, Option<nat>))
    requires |h.bySize| == NSIZES && b.page in h.pages
  {
    var hp := h.pages[b.page];
    if |hp.free| + 1 == BlocksPerPage(hp.blk) then
      (Heap(h.pages - {b.page},
            h.bySize[hp.blk := Remove(h.bySize[hp.blk], b.page)],
            Remove(h.all, b.page)),
       Some(b.page))
    else
      (h.(pages := h.pages[b.page := hp.(free := [b.index] + hp.free)]), None)
  }

  // ------------------------------------------------------------------ block geometry

  lemma MulMono(i: nat, j: nat, n: nat)
    requires i < j
    ensures i * n + n <= j * n
  {
    var d := j - i - 1;
    assert j * n == (i + 1 + d) * n == i * n + n + d * n;
  }

  /** A block lies inside its page and its address is aligned to its size. */
  lemma BlockInPage(page: nat, blk: BlockType, i: nat)
    requires page % PAGE_SIZE == 0 && i < BlocksPerPage(blk)
    ensures page <= BlockAddr(page, blk, i)
    ensures BlockAddr(page, blk, i) + SizeOf(blk) <= page + PAGE_SIZE
    ensures PageFrame(BlockAddr(page, blk, i)) == page
    ensures BlockAddr(page, blk, i) % SizeOf(blk) == 0
  {
    MulMono(i, BlocksPerPage(blk), SizeOf(blk));
    Aligned(page, blk, i);
  }

  lemma Aligned(page: nat, blk: BlockType, i: nat)
    requires page % PAGE_SIZE == 0
    ensures BlockAddr(page, blk, i) % SizeOf(blk) == 0
  {
    var n, m := SizeOf(blk), BlocksPerPage(blk);
    var q := page / PAGE_SIZE;
    assert page == q * (m * n) == (q * m) * n;
    assert page + i * n == (q * m + i) * n;
    MulMod(q * m + i, n);
  }

  lemma MulMod(k: nat, n: nat)
    requires n > 0
    ensures k * n % n == 0
  {
    var q, r := k * n / n, k * n % n;
    assert k * n == q * n + r;
    if q < k {
      MulMono(q, k, n);
    } else if k < q {
      MulMono(k, q, n);
    }
  }

  /** Different blocks of a heap do not overlap. */
  lemma BlocksApart(h: Heap, b: Block, b': Block)
    requires HeapInv(h) && IsLive(h, b) && IsLive(h, b') && b != b'
    ensures
      || AddrOf(h, b) + SizeOf(h.pages[b.page].blk) <= AddrOf(h, b')
      || AddrOf(h, b') + SizeOf(h.pages[b'.page].blk) <= AddrOf(h, b)
  {
    var blk, blk' := h.pages[b.page].blk, h.pages[b'.page].blk;
    assert PageOk(b.page, h.pages[b.page]) && PageOk(b'.page, h.pages[b'.page]);
    BlockInPage(b.page, blk, b.index);
    BlockInPage(b'.page, blk', b'.index);
    if b.page == b'.page {
      if b.index < b'.index {
        MulMono(b.index, b'.index, SizeOf(blk));
      } else {
        MulMono(b'.index, b.index, SizeOf(blk));
      }
    }
  }
}
