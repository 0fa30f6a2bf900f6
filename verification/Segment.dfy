/** Program segments and the loading of one page of a segment from its executable. */
module Segment {
  import opened Common
  import opened PageTable

  type Byte = bv8

  /** The contents of a frame. */
  type Page = p: seq<Byte> | |p| == PAGE_SIZE witness seq(PAGE_SIZE, _ => 0)

  datatype Perm = ReadOnly | ReadWrite | Executable | StackPerm

  /** A prepared segment: `fileSize` bytes at `fileOffset` of `file` are its initialised part,
      `memSize` bytes its extent in memory; `table` has one word per page. */
  datatype Seg = Seg(
    perm: Perm,
    fileSize: nat,
    fileOffset: nat,
    base: nat,
    memSize: nat,
    file: seq<Byte>,
    table: seq<Word>)
  {
    function NumPages(): nat {
      |table|
    }

    /** Address of page `index`. */
    function PageAddr(index: nat): nat {
      PageFrame(base) + index * PAGE_SIZE
    }

    predicate Writable() {
      perm.ReadWrite? || perm.StackPerm?
    }
  }

  function ZeroPage(): Page {
    seq(PAGE_SIZE, _ => 0)
  }

  // -------------------------------------------------------------------- definition

  /** The page count of `as_define_region`. */
  function RegionPages(va: nat, memSize: nat): nat {
    PageFrame(memSize + va % PAGE_SIZE + PAGE_SIZE - 1) / PAGE_SIZE
  }

  function EmptyTable(n: nat): seq<Word> {
    seq(n, _ => PT_EMPTY)
  }

  /** A region of the executable as `load_elf` hands it to `as_define_region`. */
  datatype Region = Region(
    va: nat,
    memSize: nat,
    fileSize: nat,
    offset: nat,
    file: seq<Byte>,
    writeable: bool,
    executable: bool)

  /** The permission `seg_define` chooses. */
  function PermOf(writeable: bool, executable: bool): Perm {
    if writeable then ReadWrite else if executable then Executable else ReadOnly
  }

  /** `seg_define` and `seg_prepare`. */
  function Define(r: Region): Seg {
    Seg(PermOf(r.writeable, r.executable), r.fileSize, r.offset, r.va, r.memSize, r.file,
        EmptyTable(RegionPages(r.va, r.memSize)))
  }

  /** The pages counted are exactly those a nonempty region touches. */
  lemma RegionPagesExact(va: nat, memSize: nat, a: nat)
    requires va <= a < va + memSize
    ensures var n := RegionPages(va, memSize);
      && PageFrame(va) <= PageFrame(a) < PageFrame(va) + n * PAGE_SIZE
      && n > 0 && PageFrame(va) + (n - 1) * PAGE_SIZE < va + memSize <= PageFrame(va) + n * PAGE_SIZE
  {
  }

  /** What the executable format and the kernel layout guarantee of a segment. */
  ghost predicate SegWf(s: Seg) {
    && s.fileSize <= s.memSize
    && s.base + s.memSize <= USERSTACK
    && s.NumPages() == RegionPages(s.base, s.memSize)
  }

  // -------------------------------------------------------------------- page loading

  /** Where a page load reads and writes: `len` bytes from file position `src` to offset
      `dst` of the frame. */
  datatype Load = Load(dst: nat, len: nat, src: nat)

  /** The three cases of `seg_load_page`. */
  function LoadOf(s: Seg, index: nat): Load {
    var off := s.base % PAGE_SIZE;
    if index == 0 then
      Load(off, if s.fileSize > PAGE_SIZE - off then PAGE_SIZE - off else s.fileSize, s.fileOffset)
    else if index == s.NumPages() - 1 then
      var before := (s.NumPages() - 1) * PAGE_SIZE - off;
      Load(0, if s.fileSize <= before then 0 else s.fileSize - before, s.fileOffset + before)
    else
      var before := index * PAGE_SIZE - off;
      Load(0,
           if s.fileSize <= before then 0
           else if s.fileSize > PAGE_SIZE + before then PAGE_SIZE
           else s.fileSize - before,
           s.fileOffset + before)
  }

  /** A zeroed frame after `got` bytes of the load have arrived. */
  function Filled(s: Seg, l: Load, got: nat): (p: Page)
    requires got <= l.len && (got > 0 ==> l.src + got <= |s.file|)
  {
    seq(PAGE_SIZE, k requires 0 <= k < PAGE_SIZE =>
      if l.dst <= k < l.dst + got then s.file[l.src + (k - l.dst)] else 0)
  }

  /** The byte the eager loader leaves at address `a`: the file contents, then zeros. */
  function ImageByte(s: Seg, a: nat): Byte {
    if s.base <= a < s.base + s.fileSize && s.fileOffset + (a - s.base) < |s.file|
    then s.file[s.fileOffset + (a - s.base)] else 0
  }

  /** Page `index` of the eagerly loaded segment. */
  function PageImage(s: Seg, index: nat): Page {
    seq(PAGE_SIZE, k requires 0 <= k < PAGE_SIZE => ImageByte(s, s.PageAddr(index) + k))
  }

  /** Loading a page on demand never leaves its frame and gives the page of the eagerly
      loaded segment, for any alignment of the base. */
  lemma DemandIsEager(s: Seg, index: nat)
    requires SegWf(s) && index < s.NumPages()
    ensures var l := LoadOf(s, index);
      && l.dst + l.len <= PAGE_SIZE
      && (l.src + l.len <= |s.file| ==> Filled(s, l, l.len) == PageImage(s, index))
      && (l.len == 0 ==> PageImage(s, index) == ZeroPage())
  {
    var l := LoadOf(s, index);
    var image := PageImage(s, index);
    if l.src + l.len <= |s.file| {
      var page := Filled(s, l, l.len);
      forall k | 0 <= k < PAGE_SIZE
        ensures page[k] == image[k]
      {
        LoadWindow(s, index, k);
        assert image[k] == ImageByte(s, s.PageAddr(index) + k);
        assert page[k] == if l.dst <= k < l.dst + l.len then s.file[l.src + (k - l.dst)] else 0;
      }
      assert page == image;
    }
    if l.len == 0 {
      forall k | 0 <= k < PAGE_SIZE
        ensures image[k] == 0
      {
        LoadWindow(s, index, k);
        assert image[k] == ImageByte(s, s.PageAddr(index) + k);
      }
      assert image == ZeroPage();
    }
  }

  lemma LoadWindow(s: Seg, index: nat, k: nat)
    requires SegWf(s) && index < s.NumPages() && k < PAGE_SIZE
    ensures var l := LoadOf(s, index);
      && (s.base <= s.PageAddr(index) + k < s.base + s.fileSize <==> l.dst <= k < l.dst + l.len)
      && (l.dst <= k ==> s.fileOffset + (s.PageAddr(index) + k - s.base) == l.src + (k - l.dst))
  {
  }

  /** Byte `b` of the initialised part is read by the load of page `index`. */
  predicate Reads(s: Seg, index: nat, b: nat) {
    var l := LoadOf(s, index);
    index < s.NumPages() && l.src <= s.fileOffset + b < l.src + l.len
  }

  /** The reads of all pages together read every byte of the initialised part exactly once
      and nothing else. */
  lemma ReadsPartitionFile(s: Seg, b: nat)
    requires SegWf(s)
    ensures b < s.fileSize <==> exists index: nat :: Reads(s, index, b)
    ensures forall i: nat, j: nat :: Reads(s, i, b) && Reads(s, j, b) ==> i == j
  {
    var page := (b + s.base % PAGE_SIZE) / PAGE_SIZE;
    if b < s.fileSize {
      RegionPagesExact(s.base, s.memSize, s.base + b);
      ReadOnce(s, page, b);
      assert Reads(s, page, b);
    }
    forall i: nat | Reads(s, i, b)
      ensures i == page && b < s.fileSize
    {
      ReadOnce(s, i, b);
    }
  }

  lemma ReadOnce(s: Seg, index: nat, b: nat)
    requires SegWf(s) && index < s.NumPages()
    ensures Reads(s, index, b) <==> b < s.fileSize && index == (b + s.base % PAGE_SIZE) / PAGE_SIZE
  {
  }

  /** Without `fileSize <= memSize` the load of the last page can run past its frame; it stays
      inside, on every page, exactly when the initialised part fits the pages or there is only one. */
  lemma LoadsStayInFramesIff(s: Seg)
    requires s.NumPages() > 0
    ensures (forall index: nat :: index < s.NumPages() ==> LoadOf(s, index).dst + LoadOf(s, index).len <= PAGE_SIZE)
      <==> s.NumPages() == 1 || s.base % PAGE_SIZE + s.fileSize <= s.NumPages() * PAGE_SIZE
  {
    var last := s.NumPages() - 1;
    assert LoadOf(s, last).dst + LoadOf(s, last).len <= PAGE_SIZE <==>
      s.NumPages() == 1 || s.base % PAGE_SIZE + s.fileSize <= s.NumPages() * PAGE_SIZE;
  }

  /** A segment whose file part is longer than its memory: the last load runs past its frame. */
  lemma LastLoadOverruns()
    ensures
      var s := Seg(ReadOnly, 12288, 0, 0x40_0000, 4097, [], [0, 0]);
      s.NumPages() == 2 && LoadOf(s, 1).dst + LoadOf(s, 1).len == 2 * PAGE_SIZE
  {
  }
}
