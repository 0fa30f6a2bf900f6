/** The demand-paging memory manager as a state machine. Each kernel entry point is one step;
    a step that fails an assertion or calls `panic` ends the run. */
module Vm {
  import opened Common
  import opened Coremap
  import opened PageTable
  import opened Segment
  import opened AddrSpace
  import opened Tlb

  /** Pages in the 9 MB swap file. */
  const SWAP_SLOTS: nat := 9 * 1024 * 1024 / PAGE_SIZE

  /** The event counters, in the order of `vmstats.h`. */
  datatype Stats = Stats(
    tlbMiss: nat,
    missFree: nat,
    missReplace: nat,
    invalidations: nat,
    reloads: nat,
    zeroed: nat,
    disk: nat,
    elf: nat,
    swapIns: nat,
    swapWrites: nat)

  /** The whole memory manager. `slots` is the set of swap slots marked in the bitmap.
      The last two fields count `swap_free` calls and failed page loads; they are
      history only and no operation reads them. */
  datatype State = State(
    cm: Cm,
    ram: seq<Page>,
    slots: set<nat>,
    swap: seq<Page>,
    spaces: map<SpaceId, Space>,
    tlb: Tlb,
    cur: Option<SpaceId>,
    stats: Stats,
    swapFrees: nat,
    failedLoads: nat)

  // ------------------------------------------------------------------- pages

  /** A page of a live address space: segment and page number. */
  datatype Pg = Pg(a: SpaceId, sel: Sel, index: nat)

  predicate IsPage(spaces: map<SpaceId, Space>, p: Pg) {
    p.a in spaces && p.index < spaces[p.a].At(p.sel).NumPages()
  }

  function SegOf(spaces: map<SpaceId, Space>, p: Pg): Seg
    requires p.a in spaces
  {
    spaces[p.a].At(p.sel)
  }

  /** The page-table word of a page. */
  function WordOf(spaces: map<SpaceId, Space>, p: Pg): Word
    requires IsPage(spaces, p)
  {
    spaces[p.a].At(p.sel).table[p.index]
  }

  /** Virtual address of a page. */
  function AddrOf(spaces: map<SpaceId, Space>, p: Pg): nat
    requires p.a in spaces
  {
    SegOf(spaces, p).PageAddr(p.index)
  }

  function SetWord(spaces: map<SpaceId, Space>, p: Pg, w: Word): map<SpaceId, Space>
    requires IsPage(spaces, p)
  {
    spaces[p.a := spaces[p.a].WithTable(p.sel, spaces[p.a].At(p.sel).table[p.index := w])]
  }

  // ---------------------------------------------------------------- swap file

  /** Least slot at or after `i` that is not marked. */
  function LeastFreeFrom(slots: set<nat>, i: nat): (r: Option<nat>)
    requires i <= SWAP_SLOTS
    ensures r.Some? ==> i <= r.value < SWAP_SLOTS && r.value !in slots && forall j :: i <= j < r.value ==> j in slots
    ensures r.None? ==> forall j :: i <= j < SWAP_SLOTS ==> j in slots
    decreases SWAP_SLOTS - i
  {
    if i == SWAP_SLOTS then None
    else if i !in slots then Some(i)
    else LeastFreeFrom(slots, i + 1)
  }

  /** `as_activate` on the running address space. */
  function Flush(s: State): State {
    s.(tlb := Invalidate(s.tlb), stats := s.stats.(invalidations := s.stats.invalidations + 1))
  }

  /** The state after a disk transfer. A thread that was put to sleep by it came back through
      `as_activate`, which flushed the TLB. */
  function AfterTransfer(s: State, slept: bool): State {
    if slept then Flush(s) else s
  }

  /** `swap_out`. */
  function SwapOut(s: State, f: nat, slept: bool): Result<(State, nat)> {
    var found := LeastFreeFrom(s.slots, 0);
    :- Check(f != 0 && f < |s.ram|);
    match found
    case None => Panic
    case Some(slot) =>
      :- Check(slot < |s.swap|);
      var s1 := s.(
        slots := s.slots + {slot},
        swap := s.swap[slot := s.ram[f]],
        stats := s.stats.(swapWrites := s.stats.swapWrites + 1));
      Ok((AfterTransfer(s1, slept), slot))
  }

  /** `swap_in`. */
  function SwapIn(s: State, f: nat, offset: nat, slept: bool): Result<State> {
    var slot := offset / PAGE_SIZE;
    :- Check(offset % PAGE_SIZE == 0 && slot < SWAP_SLOTS);
    :- Check(slot in s.slots && slot < |s.swap| && f < |s.ram|);
    var s1 := s.(
      ram := s.ram[f := s.swap[slot]],
      slots := s.slots - {slot},
      stats := s.stats.(swapIns := s.stats.swapIns + 1, disk := s.stats.disk + 1));
    Ok(AfterTransfer(s1, slept))
  }

  // ------------------------------------------------------------ user page frames

  /** The replacement branch of `allocate_user_page`: the victim goes to a swap slot, its
      page-table word is tagged, and its frame changes owner. */
  function Evict(s: State, a: SpaceId, va: nat, slept: bool): Result<(State, nat)> {
    var v := s.cm.victim;
    :- Check(v < |s.cm.entries|);
    var (s1, slot) :- SwapOut(s, v, slept);
    var e := s.cm.entries[v];
    :- Check(e.space.Some? && e.space.value in s.spaces);
    var sp := s.spaces[e.space.value];
    var found := FindCoarse(sp, e.vaddr);
    :- Check(found.Some?);
    var sel := found.value;
    var index :- EntryIndex(sp.At(sel).base, sp.At(sel).NumPages(), e.vaddr);
    var table :- SwapOutEntry(sp.At(sel).table, index, slot * PAGE_SIZE);
    var cm :- Retarget(s.cm, a, va);
    Ok((s1.(cm := cm, spaces := s.spaces[e.space.value := sp.WithTable(sel, table)]), v))
  }

  /** `alloc_user_page`. */
  ghost function AllocUserPage(s: State, a: SpaceId, va: nat, slept: bool): Result<(State, nat)> {
    var (cm1, f) := TakeUserFrame(s.cm, a, va);
    if f != 0 then
      var cm2 :- Enqueue(cm1, f, a, va);
      Ok((s.(cm := cm2), f))
    else
      Evict(s.(cm := cm1), a, va, slept)
  }

  // --------------------------------------------------------------- page faults

  datatype FaultKind = ReadFault | WriteFault | ReadOnlyFault | OtherFault

  datatype Code = Success | Einval | Eacces | Efault

  /** What the executable's read returned: everything the file holds, or an error after
      `got` bytes. */
  datatype ReadOutcome = Complete | ReadError(got: nat)

  /** What happens during a fault outside the memory manager: whether the write of a replaced page
      sleeps, whether the read of the page sleeps, and what that read returns. */
  datatype Env = Env(slept: bool, readSlept: bool, read: ReadOutcome)

  /** How many bytes of a load arrive. */
  function BytesRead(seg: Seg, l: Load, read: ReadOutcome): (got: nat)
    ensures got <= l.len && (got > 0 ==> l.src + got <= |seg.file|)
  {
    var held := Min(l.len, if l.src <= |seg.file| then |seg.file| - l.src else 0);
    match read
    case Complete => held
    case ReadError(got) => Min(got, held)
  }

  predicate LoadSucceeds(seg: Seg, l: Load, read: ReadOutcome) {
    read.Complete? && BytesRead(seg, l, read) == l.len
  }

  /** `pt_add_entry` on one page. */
  function AddWord(s: State, p: Pg, w: Word): Result<State>
    requires IsPage(s.spaces, p)
  {
    var table :- AddEntry(SegOf(s.spaces, p).table, p.index, w);
    Ok(s.(spaces := s.spaces[p.a := s.spaces[p.a].WithTable(p.sel, table)]))
  }

  /** `seg_load_page`: a load that would leave the frame ends the run. */
  function LoadPage(s: State, p: Pg, f: nat, read: ReadOutcome, slept: bool): Result<(State, bool)>
    requires IsPage(s.spaces, p)
  {
    var seg := SegOf(s.spaces, p);
    var l := LoadOf(seg, p.index);
    :- Check(l.dst + l.len <= PAGE_SIZE && f < |s.ram|);
    var stats := if l.len == 0 then s.stats.(zeroed := s.stats.zeroed + 1)
                 else s.stats.(disk := s.stats.disk + 1, elf := s.stats.elf + 1);
    var ok := LoadSucceeds(seg, l, read);
    var s1 := s.(
      ram := s.ram[f := Filled(seg, l, BytesRead(seg, l, read))],
      stats := stats,
      failedLoads := if ok then s.failedLoads else s.failedLoads + 1);
    Ok((AfterTransfer(s1, slept), ok))
  }

  /** First contents of a page: zeros for the stack, else from the executable. */
  function Populate(s: State, p: Pg, f: nat, read: ReadOutcome, slept: bool): Result<(State, bool)>
    requires IsPage(s.spaces, p)
  {
    if SegOf(s.spaces, p).perm.StackPerm? then
      :- Check(f < |s.ram|);
      Ok((s.(ram := s.ram[f := ZeroPage()], stats := s.stats.(zeroed := s.stats.zeroed + 1)), true))
    else LoadPage(s, p, f, read, slept)
  }

  /** A page touched for the first time. */
  ghost function FirstTouch(s: State, p: Pg, va: nat, env: Env): Result<(State, nat, bool)>
    requires IsPage(s.spaces, p)
  {
    var (s1, f) :- AllocUserPage(s, p.a, PageFrame(va), env.slept);
    :- Check(IsPage(s1.spaces, p));
    var s2 :- AddWord(s1, p, f * PAGE_SIZE);
    :- Check(IsPage(s2.spaces, p));
    var (s3, ok) :- Populate(s2, p, f, env.read, env.readSlept);
    Ok((s3, f, ok))
  }

  /** A page found swapped out. */
  ghost function BringBack(s: State, p: Pg, va: nat, env: Env): Result<(State, nat, bool)>
    requires IsPage(s.spaces, p)
  {
    var (s1, f) :- AllocUserPage(s, p.a, PageFrame(va), env.slept);
    :- Check(IsPage(s1.spaces, p) && IsSwapped(WordOf(s1.spaces, p)));
    var s2 :- SwapIn(s1, f, SwapOffset(WordOf(s1.spaces, p)), env.readSlept);
    :- Check(IsPage(s2.spaces, p));
    var s3 :- AddWord(s2, p, f * PAGE_SIZE);
    Ok((s3, f, true))
  }

  /** Makes the page resident, whatever state it is in; the flag is false when its load from
      the executable failed. */
  ghost function MakeResident(s: State, p: Pg, va: nat, env: Env): Result<(State, nat, bool)>
    requires IsPage(s.spaces, p)
  {
    var w := WordOf(s.spaces, p);
    if w == PT_EMPTY then FirstTouch(s, p, va, env)
    else if IsSwapped(w) then BringBack(s, p, va, env)
    else
      :- Check(w % PAGE_SIZE == 0);
      Ok((s.(stats := s.stats.(reloads := s.stats.reloads + 1)), w / PAGE_SIZE, true))
  }

  /** The end of `vm_fault`: count the miss and write the TLB. */
  function Install(s: State, va: nat, f: nat, writable: bool): Result<State> {
    var victim := s.tlb.victim;
    :- Check(victim < |s.tlb.slots|);
    var stats := if s.tlb.slots[victim].Maps? then s.stats.(missReplace := s.stats.missReplace + 1)
                 else s.stats.(missFree := s.stats.missFree + 1);
    Ok(s.(stats := stats.(tlbMiss := stats.tlbMiss + 1),
          tlb := Write(s.tlb, Maps(PageFrame(va), f, writable))))
  }

  /** The page a user address falls in, as `vm_fault` finds it. */
  function FaultPage(spaces: map<SpaceId, Space>, a: SpaceId, va: nat): Result<Option<Pg>>
    requires a in spaces
  {
    var sp := spaces[a];
    match FindSegment(sp, va)
    case None => Ok(None)
    case Some(sel) =>
      var index :- EntryIndex(sp.At(sel).base, sp.At(sel).NumPages(), va);
      Ok(Some(Pg(a, sel, index)))
  }

  /** `vm_fault`. */
  ghost function Fault(s: State, kind: FaultKind, va: nat, env: Env): Result<(State, Code)> {
    if kind.OtherFault? then Ok((s, Einval))
    else if kind.ReadOnlyFault? then Ok((s, Eacces))
    else if s.cur.None? then Ok((s, Efault))
    else
      :- Check(s.cur.value in s.spaces);
      var target :- FaultPage(s.spaces, s.cur.value, va);
      match target
      case None => Ok((s, Efault))
      case Some(p) =>
        :- Check(IsPage(s.spaces, p));
        var (s1, f, ok) :- MakeResident(s, p, va, env);
        if !ok then Ok((s1, Efault))
        else
          var s2 :- Install(s1, va, f, SegOf(s.spaces, p).Writable());
          Ok((s2, Success))
  }

  // --------------------------------------------------------- address space life

  /** The loop of `pt_clear_content` over the words from `i` on. */
  function ClearFrom(s: State, words: seq<Word>, i: nat): Result<State>
    requires i <= |words|
    decreases |words| - i
  {
    if i == |words| then Ok(s)
    else
      var s1 :- ClearWord(s, words[i]);
      ClearFrom(s1, words, i + 1)
  }

  /** One iteration: a swapped page gives its slot back, a resident one its frame. */
  function ClearWord(s: State, w: Word): Result<State> {
    if IsSwapped(w) then
      var slot := SwapOffset(w) / PAGE_SIZE;
      :- Check(SwapOffset(w) % PAGE_SIZE == 0 && slot < SWAP_SLOTS && slot in s.slots);
      Ok(s.(slots := s.slots - {slot}, swapFrees := s.swapFrees + 1))
    else if w != PT_EMPTY then
      var cm :- FreeUser(s.cm, w / PAGE_SIZE);
      Ok(s.(cm := cm))
    else Ok(s)
  }

  /** `as_destroy`: the page tables go with the address space. A thread whose address space
      is gone runs no more user code. */
  function Destroy(s: State, a: SpaceId): Result<State>
    requires a in s.spaces
  {
    var sp := s.spaces[a];
    var s1 :- ClearFrom(s, sp.code.table, 0);
    var s2 :- ClearFrom(s1, sp.data.table, 0);
    var s3 :- ClearFrom(s2, sp.stack.table, 0);
    Ok(s3.(spaces := s3.spaces - {a}, cur := if s3.cur == Some(a) then None else s3.cur))
  }

  // ---------------------------------------------------------------------- steps

  datatype Event =
    | Create(a: SpaceId, code: Region, data: Region)
    | Activate(a: SpaceId)
    | TakeFault(kind: FaultKind, va: nat, env: Env)
    | Load(va: nat)
    | Store(va: nat, b: Byte)
    | Exit(a: SpaceId)
    | AllocKpages(n: nat)
    | FreeKpages(f: nat)
    | KernelWrite(f: nat, page: Page)

  /** The TLB entry a user access goes through, if it does not fault. */
  function Translate(s: State, va: nat): Option<TlbEntry> {
    match Find(s.tlb.slots, PageFrame(va))
    case None => None
    case Some(i) => Some(s.tlb.slots[i])
  }

  ghost function Step(s: State, e: Event): Result<(State, Code)> {
    match e
    case Create(a, code, data) => Ok((s.(spaces := s.spaces[a := NewSpace(code, data)]), Success))
    case Activate(a) => Ok((Flush(s).(cur := Some(a)), Success))
    case TakeFault(kind, va, env) => Fault(s, kind, va, env)
    case Load(va) => Ok((s, Success))
    case Store(va, b) =>
      var entry := Translate(s, va);
      :- Check(entry.Some? && entry.value.frame < |s.ram|);
      var f := entry.value.frame;
      Ok((s.(ram := s.ram[f := s.ram[f][va % PAGE_SIZE := b]]), Success))
    case Exit(a) =>
      :- Check(a in s.spaces);
      var s1 :- Destroy(s, a);
      Ok((s1, Success))
    case AllocKpages(n) =>
      var (cm, f) :- AllocateKernel(s.cm, n);
      Ok((s.(cm := cm), Success))
    case FreeKpages(f) =>
      var cm :- FreeKernel(s.cm, f);
      Ok((s.(cm := cm), Success))
    case KernelWrite(f, page) =>
      :- Check(f < |s.ram|);
      Ok((s.(ram := s.ram[f := page]), Success))
  }
}
