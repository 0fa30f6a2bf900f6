/** A block freed twice, on a page of four blocks of 1024 bytes. */
module KheapTwice {
  import opened Common
  import opened Kheap
  import opened KheapSafety
  import opened KheapRefs
  import opened KheapRep
  import opened KheapSteps
  import opened KheapTable

  const PAGE: nat := 4096
  const KILO: BlockType := 6

  /** The page is on the heap, alone of its size, with these free blocks. */
  ghost predicate Alone(h: Heap, free: seq<nat>) {
    |h.bySize| == NSIZES && h.bySize[KILO] == [PAGE] && PAGE in h.pages && h.pages[PAGE] == HeapPage(KILO, free)
  }

  function Addr(i: nat): nat {
    BlockAddr(PAGE, KILO, i)
  }

  lemma BlockThere(h: Heap, free: seq<nat>, i: nat)
    requires Alone(h, free) && i < 4
    ensures PageFrame(Addr(i)) == PAGE && Points(h, Addr(i)) && BlockOf(h, Addr(i)) == Block(PAGE, i)
  {
  }

  lemma TakeNext(h: Heap, free: seq<nat>)
    requires Alone(h, free) && free != []
    ensures
      var (h', b) := Malloc(h, KILO, None);
      Alone(h', free[1..]) && b == Some(Block(PAGE, free[0])) && AddrOf(h', b.value) == Addr(free[0])
  {
  }

  lemma TakeFirst()
    ensures
      var (h', b) := Malloc(EmptyHeap(), KILO, Some(PAGE));
      Alone(h', [2, 1, 0]) && b == Some(Block(PAGE, 3)) && AddrOf(h', b.value) == Addr(3)
  {
    assert FreshList(4) == [3, 2, 1, 0];
  }

  lemma GiveNext(h: Heap, free: seq<nat>, i: nat)
    requires Alone(h, free) && i < 4 && |free| < 3
    ensures !FirstFree(h.pages[PAGE], i) <==> free == [] || free[0] != i
    ensures Free(h, Block(PAGE, i)).1.None? && Alone(Free(h, Block(PAGE, i)).0, [i] + free)
    ensures i !in free ==> IsLive(h, Block(PAGE, i))
  {
  }

  lemma GiveLast(h: Heap, free: seq<nat>, i: nat)
    requires Alone(h, free) && i < 4 && |free| == 3
    ensures Free(h, Block(PAGE, i)).1 == Some(PAGE) && PAGE !in Free(h, Block(PAGE, i)).0.pages
  {
  }

  lemma LoopOfTwo(mem: map<nat, nat>, hp: HeapPage, k: nat)
    requires hp == HeapPage(KILO, [2, 3]) && Looped(mem, PAGE, hp, 3, k)
    ensures Addr(2) in mem && Addr(3) in mem && mem[Addr(3)] == Addr(2) && mem[Addr(2)] == Addr(3)
  {
    assert k == 1;
    assert FreeWord(mem, PAGE, KILO, hp.free, 0);
  }

  /** A sound table with that page and no leaked reference. */
  ghost predicate Ready(t: Table, free: seq<nat>)
    reads t, t.pool, t.pool.inuse, t.pool.numinuse, t.pool.hasPage, t.refs, t.sizebases
  {
    t.Valid() && t.pool.NoLeak() && Alone(t.h, free)
  }

  /** The first allocation takes the page and its last block. */
  method Start() returns (t: Table, ptr: nat)
    ensures fresh(t) && fresh(t.refs) && fresh(t.sizebases)
    ensures fresh(t.pool) && fresh(t.pool.inuse) && fresh(t.pool.numinuse) && fresh(t.pool.hasPage)
    ensures Ready(t, [2, 1, 0]) && ptr == Addr(3)
  {
    t := new Table();
    TakeFirst();
    var back;
    ptr, back := t.SubpageKmalloc(1024, Some(PAGE), true);
  }

  method Get(t: Table, ghost free: seq<nat>) returns (ptr: nat)
    requires Ready(t, free) && free != []
    modifies t, t.refs, t.sizebases, t.pool.inuse, t.pool.numinuse, t.pool.hasPage
    ensures Ready(t, free[1..]) && ptr == Addr(free[0])
  {
    TakeNext(t.h, free);
    var back;
    ptr, back := t.SubpageKmalloc(1024, None, true);
  }

  method Give(t: Table, i: nat, ghost free: seq<nat>, ghost now: seq<nat>)
    requires Ready(t, free) && i < 4 && i !in free && |free| < 3 && now == [i] + free
    modifies t, t.refs, t.sizebases, t.pool.inuse, t.pool.numinuse
    ensures Ready(t, now)
  {
    BlockThere(t.h, free, i);
    GiveNext(t.h, free, i);
    ghost var ref := t.refOf[PAGE];
    ghost var h0 := t.h;
    var r := t.SubpageKfree(Addr(i));
    assert t.FreedAt(h0, Block(PAGE, i), ref, r);
  }

  /** The page with all its blocks taken. */
  method AllTaken() returns (t: Table)
    ensures fresh(t) && fresh(t.refs) && fresh(t.sizebases)
    ensures fresh(t.pool) && fresh(t.pool.inuse) && fresh(t.pool.numinuse) && fresh(t.pool.hasPage)
    ensures Ready(t, [])
  {
    var a, b, c, d;
    t, a := Start();
    b := Get(t, [2, 1, 0]);
    c := Get(t, [1, 0]);
    d := Get(t, [0]);
  }

  /** One of them given back. */
  method OneFreed() returns (t: Table)
    ensures fresh(t) && fresh(t.refs) && fresh(t.sizebases)
    ensures fresh(t.pool) && fresh(t.pool.inuse) && fresh(t.pool.numinuse) && fresh(t.pool.hasPage)
    ensures Ready(t, [3])
  {
    t := AllTaken();
    Give(t, 3, [], [3]);
  }

  /** Two of them given back. */
  method TwoFreed() returns (t: Table)
    ensures fresh(t) && fresh(t.refs) && fresh(t.sizebases)
    ensures fresh(t.pool) && fresh(t.pool.inuse) && fresh(t.pool.numinuse) && fresh(t.pool.hasPage)
    ensures Ready(t, [2, 3])
  {
    t := OneFreed();
    Give(t, 2, [3], [2, 3]);
  }

  /** Three of them given back. */
  method ThreeFreed() returns (t: Table)
    ensures fresh(t) && fresh(t.refs) && fresh(t.sizebases)
    ensures fresh(t.pool) && fresh(t.pool.inuse) && fresh(t.pool.numinuse) && fresh(t.pool.hasPage)
    ensures Ready(t, [1, 2, 3])
  {
    t := TwoFreed();
    Give(t, 1, [2, 3], [1, 2, 3]);
  }

  /** The first block freed is freed again when three are free. */
  method Again(t: Table) returns (r: FreeOutcome)
    requires Ready(t, [1, 2, 3])
    modifies t, t.refs, t.sizebases, t.pool.inuse, t.pool.numinuse
    ensures r == Freed(Some(PAGE)) && PAGE !in t.h.pages
  {
    BlockThere(t.h, [1, 2, 3], 3);
    GiveLast(t.h, [1, 2, 3], 3);
    ghost var ref := t.refOf[PAGE];
    ghost var h0 := t.h;
    r := t.SubpageKfree(Addr(3));
    assert t.FreedAt(h0, Block(PAGE, 3), ref, r);
  }

  /** Three of four blocks are freed, then the first of them again: the page goes back to the frame allocator
      while its fourth block is live. */
  method LastBlockLost() returns (r: FreeOutcome, ghost before: Heap, ghost after: Heap)
    ensures r == Freed(Some(PAGE)) && PAGE !in after.pages
    ensures Points(before, Addr(0)) && IsLive(before, BlockOf(before, Addr(0)))
    ensures Points(before, Addr(3)) && !IsLive(before, BlockOf(before, Addr(3)))
  {
    var t := ThreeFreed();
    before := t.h;
    BlockThere(before, [1, 2, 3], 0);
    BlockThere(before, [1, 2, 3], 3);
    r := Again(t);
    after := t.h;
  }

  /** Two of four blocks are freed, then the first of them again: each of the two free blocks leads to the
      other. */
  method ListLoops() returns (r: FreeOutcome, first: nat, second: nat)
    ensures r == Freed(None) && first == Addr(2) && second == Addr(3)
  {
    var t := TwoFreed();
    BlockThere(t.h, [2, 3], 3);
    GiveNext(t.h, [2, 3], 3);
    ghost var ref := t.refOf[PAGE];
    ghost var h0 := t.h;
    r := t.SubpageKfree(Addr(3));
    assert t.FreedAt(h0, Block(PAGE, 3), ref, r);
    ghost var k: nat :| Looped(t.mem, PAGE, h0.pages[PAGE], 3, k);
    LoopOfTwo(t.mem, h0.pages[PAGE], k);
    first, second := t.mem[Addr(3)], t.mem[Addr(2)];
  }
}
