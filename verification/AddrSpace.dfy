/** Address spaces and the two segment lookups. */
module AddrSpace {
  import opened Common
  import opened PageTable
  import opened Segment

  const STACK_PAGES: nat := 18
  const STACK_BASE: nat := USERSTACK - STACK_PAGES * PAGE_SIZE

  datatype Sel = Code | Data | Stack

  datatype Space = Space(code: Seg, data: Seg, stack: Seg) {
    function At(sel: Sel): Seg {
      match sel
      case Code => code
      case Data => data
      case Stack => stack
    }

    function With(sel: Sel, s: Seg): Space {
      match sel
      case Code => this.(code := s)
      case Data => this.(data := s)
      case Stack => this.(stack := s)
    }

    /** Replaces the page table of one segment. */
    function WithTable(sel: Sel, table: seq<Word>): Space {
      With(sel, At(sel).(table := table))
    }
  }

  /** `as_define_stack`. */
  function StackSeg(): Seg {
    Seg(StackPerm, 0, 0, STACK_BASE, STACK_PAGES * PAGE_SIZE, [], EmptyTable(STACK_PAGES))
  }

  /** A new address space with its two regions and a stack. */
  function NewSpace(code: Region, data: Region): Space {
    Space(Define(code), Define(data), StackSeg())
  }

  /** `as_find_segment`: byte bounds. */
  function FindSegment(sp: Space, va: nat): Option<Sel> {
    if sp.code.base <= va < sp.code.base + sp.code.memSize then Some(Code)
    else if sp.data.base <= va < sp.data.base + sp.data.memSize then Some(Data)
    else if sp.stack.base <= va < USERSTACK then Some(Stack)
    else None
  }

  /** Address `va` lies in the pages of segment `s`. */
  predicate InPages(s: Seg, va: nat) {
    PageFrame(s.base) <= va < PageFrame(s.base) + s.NumPages() * PAGE_SIZE
  }

  /** `as_find_segment_coarse`: page bounds. */
  function FindCoarse(sp: Space, va: nat): Option<Sel> {
    if InPages(sp.code, va) then Some(Code)
    else if InPages(sp.data, va) then Some(Data)
    else if STACK_BASE <= va < USERSTACK then Some(Stack)
    else None
  }

  /** Two segments share no page. */
  predicate PageDisjoint(s: Seg, t: Seg) {
    || s.PageAddr(s.NumPages()) <= PageFrame(t.base)
    || t.PageAddr(t.NumPages()) <= PageFrame(s.base)
  }

  ghost predicate SpaceWf(sp: Space) {
    && SegWf(sp.code) && !sp.code.perm.StackPerm?
    && SegWf(sp.data) && !sp.data.perm.StackPerm?
    && sp.stack.(table := []) == StackSeg().(table := []) && sp.stack.NumPages() == STACK_PAGES
    && PageDisjoint(sp.code, sp.data) && PageDisjoint(sp.code, sp.stack) && PageDisjoint(sp.data, sp.stack)
  }

  /** The first page boundary at or after `x`. */
  function PageCeiling(x: nat): nat {
    if x % PAGE_SIZE == 0 then x else PageFrame(x) + PAGE_SIZE
  }

  /** The file part is no longer than the memory, which ends below the stack. */
  predicate Fits(r: Region) {
    r.fileSize <= r.memSize && (r.va + r.memSize <= STACK_BASE || (r.va == USERSTACK && r.memSize == 0))
  }

  /** The table of a segment covers it to the end of its last page. */
  lemma DefineEnds(r: Region)
    ensures Define(r).PageAddr(Define(r).NumPages()) == PageCeiling(r.va + r.memSize)
  {
  }

  /** The layouts the model starts from are those whose regions fit and share no page. */
  lemma NewSpaceWfIff(code: Region, data: Region)
    ensures SpaceWf(NewSpace(code, data)) <==>
      && Fits(code) && Fits(data)
      && (PageCeiling(code.va + code.memSize) <= PageFrame(data.va)
          || PageCeiling(data.va + data.memSize) <= PageFrame(code.va))
  {
    DefineEnds(code);
    DefineEnds(data);
    BelowStack(code);
    BelowStack(data);
  }

  lemma BelowStack(r: Region)
    ensures SegWf(Define(r)) && PageDisjoint(Define(r), StackSeg()) <==> Fits(r)
  {
    DefineEnds(r);
  }

  lemma StackIsWf(sp: Space)
    requires SpaceWf(sp)
    ensures SegWf(sp.stack) && sp.stack.base == STACK_BASE && sp.stack.base + sp.stack.memSize == USERSTACK
  {
  }

  /** The index of a page address is the page's number. */
  lemma IndexOfPage(s: Seg, index: nat)
    requires index < s.NumPages() && s.PageAddr(s.NumPages()) <= USERSTACK
    ensures EntryIndex(s.base, s.NumPages(), s.PageAddr(index)) == Ok(index)
    ensures PageFrame(s.PageAddr(index)) == s.PageAddr(index)
    ensures InPages(s, s.PageAddr(index))
  {
  }

  lemma EndsBelowStack(sp: Space, sel: Sel)
    requires SpaceWf(sp)
    ensures sp.At(sel).PageAddr(sp.At(sel).NumPages()) <= USERSTACK
  {
  }

  /** A page of a segment is found again by the coarse lookup and by its index. */
  lemma PageIsFound(sp: Space, sel: Sel, index: nat)
    requires SpaceWf(sp) && index < sp.At(sel).NumPages()
    ensures FindCoarse(sp, sp.At(sel).PageAddr(index)) == Some(sel)
    ensures EntryIndex(sp.At(sel).base, sp.At(sel).NumPages(), sp.At(sel).PageAddr(index)) == Ok(index)
    ensures PageFrame(sp.At(sel).PageAddr(index)) == sp.At(sel).PageAddr(index)
  {
    EndsBelowStack(sp, sel);
    IndexOfPage(sp.At(sel), index);
  }

  /** Different pages have different addresses. */
  lemma PageAddrInjective(sp: Space, sel: Sel, index: nat, sel': Sel, index': nat)
    requires SpaceWf(sp) && index < sp.At(sel).NumPages() && index' < sp.At(sel').NumPages()
    requires sp.At(sel).PageAddr(index) == sp.At(sel').PageAddr(index')
    ensures sel == sel' && index == index'
  {
    PageIsFound(sp, sel, index);
    PageIsFound(sp, sel', index');
  }

  /** The address is one of the segment's bytes. */
  predicate Covers(s: Seg, va: nat) {
    s.base <= va < s.base + s.memSize
  }

  lemma CoversPage(sp: Space, va: nat, sel: Sel) returns (index: nat)
    requires SpaceWf(sp) && Covers(sp.At(sel), va)
    ensures index < sp.At(sel).NumPages() && sp.At(sel).PageAddr(index) == PageFrame(va)
  {
    StackIsWf(sp);
    PageOfAddress(sp.At(sel), va);
    index := (PageFrame(va) - PageFrame(sp.At(sel).base)) / PAGE_SIZE;
  }

  lemma OneCovers(sp: Space, va: nat, sel: Sel, sel': Sel)
    requires SpaceWf(sp) && Covers(sp.At(sel), va) && Covers(sp.At(sel'), va)
    ensures sel == sel'
  {
    var index := CoversPage(sp, va, sel);
    var index' := CoversPage(sp, va, sel');
    PageAddrInjective(sp, sel, index, sel', index');
  }

  lemma FoundCovers(sp: Space, va: nat)
    requires SpaceWf(sp)
    ensures FindSegment(sp, va).Some? ==> Covers(sp.At(FindSegment(sp, va).value), va)
    ensures FindSegment(sp, va).None? ==> forall sel: Sel :: !Covers(sp.At(sel), va)
  {
    StackIsWf(sp);
  }

  /** The lookup finds exactly the addresses of the segments, and names the one segment that has them. */
  lemma FindSegmentIsExact(sp: Space, va: nat)
    requires SpaceWf(sp)
    ensures forall sel: Sel :: Covers(sp.At(sel), va) <==> FindSegment(sp, va) == Some(sel)
  {
    FoundCovers(sp, va);
    forall sel: Sel | Covers(sp.At(sel), va)
      ensures FindSegment(sp, va) == Some(sel)
    {
      OneCovers(sp, va, sel, FindSegment(sp, va).value);
    }
  }

  /** An address accepted at fault time has an index in range, and its page is found again by
      the coarse lookup an eviction uses. */
  lemma FaultAddressIsFound(sp: Space, va: nat)
    requires SpaceWf(sp) && FindSegment(sp, va).Some?
    ensures
      var sel := FindSegment(sp, va).value;
      && FindCoarse(sp, PageFrame(va)) == Some(sel)
      && EntryIndex(sp.At(sel).base, sp.At(sel).NumPages(), va).Ok?
      && var index := EntryIndex(sp.At(sel).base, sp.At(sel).NumPages(), va).value;
      && index < sp.At(sel).NumPages()
      && sp.At(sel).PageAddr(index) == PageFrame(va)
  {
    var sel := FindSegment(sp, va).value;
    var s := sp.At(sel);
    StackIsWf(sp);
    PageOfAddress(s, va);
    var index := (PageFrame(va) - PageFrame(s.base)) / PAGE_SIZE;
    PageIsFound(sp, sel, index);
    assert EntryIndex(s.base, s.NumPages(), va) == EntryIndex(s.base, s.NumPages(), PageFrame(va));
  }

  lemma PageOfAddress(s: Seg, va: nat)
    requires SegWf(s) && s.base <= va < s.base + s.memSize
    ensures
      var index := (PageFrame(va) - PageFrame(s.base)) / PAGE_SIZE;
      index < s.NumPages() && s.PageAddr(index) == PageFrame(va)
  {
    RegionPagesExact(s.base, s.memSize, va);
  }

  lemma CoarseFindsPage(sp: Space, va: nat) returns (index: nat)
    requires SpaceWf(sp) && PageFrame(va) == va && FindCoarse(sp, va).Some?
    ensures var s := sp.At(FindCoarse(sp, va).value); index < s.NumPages() && s.PageAddr(index) == va
  {
    index := (va - PageFrame(sp.At(FindCoarse(sp, va).value).base)) / PAGE_SIZE;
  }

  /** The coarse lookup finds exactly the pages of the space. */
  lemma CoarseIsExact(sp: Space, va: nat)
    requires SpaceWf(sp) && PageFrame(va) == va
    ensures FindCoarse(sp, va).Some? <==>
      exists sel: Sel, index: nat :: index < sp.At(sel).NumPages() && sp.At(sel).PageAddr(index) == va
  {
    if FindCoarse(sp, va).Some? {
      var index := CoarseFindsPage(sp, va);
    }
    forall sel: Sel, index: nat | index < sp.At(sel).NumPages() && sp.At(sel).PageAddr(index) == va
      ensures FindCoarse(sp, va) == Some(sel)
    {
      PageIsFound(sp, sel, index);
    }
  }
}
