/** The memory manager as the kernel runs it: the coremap, the swap bitmap, the TLB, physical memory
    and the counters are updated in place. Every method has the effect its function in `Vm` describes;
    `Panic` or `false` means the run is over. */
module Pager {
  import opened Common
  import opened Coremap
  import opened PageTable
  import opened Segment
  import opened AddrSpace
  import opened Tlb
  import opened Vm
  import opened VmRun
  import opened CoremapQueue
  import CoremapTable
  import Bitmap

  const VMSTATS_NUM: nat := 10
  const VMSTAT_TLB_MISS: nat := 0
  const VMSTAT_TLB_MISS_FREE: nat := 1
  const VMSTAT_TLB_MISS_REPLACE: nat := 2
  const VMSTAT_TLB_INVALIDATION: nat := 3
  const VMSTAT_TLB_RELOAD: nat := 4
  const VMSTAT_PAGE_FAULT_ZERO: nat := 5
  const VMSTAT_PAGE_FAULT_DISK: nat := 6
  const VMSTAT_PAGE_FAULT_ELF: nat := 7
  const VMSTAT_PAGE_FAULT_SWAPFILE: nat := 8
  const VMSTAT_SWAPFILE_WRITE: nat := 9

  function StatsOf(c: seq<nat>): Stats
    requires |c| == VMSTATS_NUM
  {
    Stats(c[0], c[1], c[2], c[3], c[4], c[5], c[6], c[7], c[8], c[9])
  }

  class Manager {
    const cm: CoremapTable.Table
    const swapmap: Bitmap.Map
    const tlb: Device
    const ram: array<Page>
    const swap: array<Page>
    const counts: array<nat>
    var spaces: map<SpaceId, Space>
    var cur: Option<SpaceId>
    ghost var swapFrees: nat
    ghost var failedLoads: nat

    ghost predicate Valid()
      reads this, cm, cm.entries, swapmap, swapmap.v, tlb, tlb.slots, ram, swap, counts
    {
      && swapmap.Valid() && swapmap.nbits == SWAP_SLOTS
      && counts.Length == VMSTATS_NUM
      && tlb.slots.Length == NUM_TLB && tlb.victim < NUM_TLB
      && swap.Length == SWAP_SLOTS
      && ram.Length == cm.entries.Length
      && Apart(cm.entries, swapmap.v, tlb.slots, ram, swap, counts)
    }

    /** The arrays are different objects. */
    static ghost predicate Apart(a: object, b: object, c: object, d: object, e: object, f: object) {
      && a != b && a != c && a != d && a != e && a != f
      && b != c && b != d && b != e && b != f
      && c != d && c != e && c != f
      && d != e && d != f
      && e != f
    }

    ghost function Value(): State
      requires Valid()
      reads this, cm, cm.entries, swapmap, swapmap.v, tlb, tlb.slots, ram, swap, counts
    {
      State(cm.Value(), ram[..], swapmap.Contents(), swap[..], spaces, tlb.Value(), cur,
            StatsOf(counts[..]), swapFrees, failedLoads)
    }

    /** `vm_bootstrap`, over parts as their own initialisers leave them. */
    constructor (table: CoremapTable.Table, bits: Bitmap.Map, device: Device,
                 memory: array<Page>, file: array<Page>, counters: array<nat>)
      requires Boot(table.Value()) && memory.Length == table.entries.Length
      requires bits.Valid() && bits.nbits == SWAP_SLOTS && bits.Contents() == {} && file.Length == SWAP_SLOTS
      requires TlbWf(device.Value()) && forall i :: 0 <= i < NUM_TLB ==> device.slots[i] == TlbEntry.Invalid
      requires counters.Length == VMSTATS_NUM && forall i :: 0 <= i < VMSTATS_NUM ==> counters[i] == 0
      requires Apart(table.entries, bits.v, device.slots, memory, file, counters)
      ensures Valid() && BootState(Value())
    {
      cm, swapmap, tlb, ram, swap, counts := table, bits, device, memory, file, counters;
      spaces, cur := map[], None;
      swapFrees, failedLoads := 0, 0;
    }

    /** `vmstats_increment`. */
    method Increment(i: nat)
      requires Valid() && i < VMSTATS_NUM
      modifies counts
      ensures Valid() && counts[..] == old(counts[..])[i := old(counts[i]) + 1]
      ensures Value() == old(Value()).(stats := StatsOf(counts[..]))
    {
      counts[i] := counts[i] + 1;
    }

    /** `swap_out`. */
    method SwapOut(f: nat, slept: bool) returns (r: Result<nat>)
      requires Valid()
      modifies swapmap.v, swap, counts, tlb.slots
      ensures Valid()
      ensures r.Ok? <==> Vm.SwapOut(old(Value()), f, slept).Ok?
      ensures r.Ok? ==> Vm.SwapOut(old(Value()), f, slept).value == (Value(), r.value)
    {
      if f == 0 || f >= ram.Length {
        return Panic;
      }
      var slot := WriteSlot(f);
      if slot.None? {
        return Panic;
      }
      Increment(VMSTAT_SWAPFILE_WRITE);
      Transfer(slept);
      return Ok(slot.value);
    }

    /** The write of a frame to the first free slot of the swap file. */
    method WriteSlot(f: nat) returns (slot: Option<nat>)
      requires Valid() && f < ram.Length
      modifies swapmap.v, swap
      ensures Valid() && slot == LeastFreeFrom(old(Value()).slots, 0)
      ensures slot.None? ==> Value() == old(Value())
      ensures slot.Some? ==>
        && slot.value < SWAP_SLOTS
        && Value() == old(Value()).(slots := old(Value()).slots + {slot.value},
                                    swap := old(Value()).swap[slot.value := old(Value()).ram[f]])
    {
      slot := swapmap.Alloc();
      if slot.Some? {
        swap[slot.value] := ram[f];
        assert swap[..] == old(swap[..])[slot.value := ram[..][f]];
      }
    }

    /** `as_activate`. */
    method Activate()
      requires Valid()
      modifies tlb.slots, counts
      ensures Valid() && Value() == Flush(old(Value()))
    {
      tlb.InvalidateEntries();
      Increment(VMSTAT_TLB_INVALIDATION);
    }

    /** The end of a transfer: a thread that slept comes back through `thread_switch`, which activates its
        address space. */
    method Transfer(slept: bool)
      requires Valid()
      modifies tlb.slots, counts
      ensures Valid() && Value() == AfterTransfer(old(Value()), slept)
    {
      if slept {
        Activate();
      }
    }

    /** The read of a slot from the swap file, which frees the slot. */
    method ReadSlot(slot: nat, f: nat)
      requires Valid() && slot in swapmap.Contents() && f < ram.Length
      modifies swapmap.v, ram
      ensures Valid()
      ensures Value() == old(Value()).(ram := old(Value()).ram[f := old(Value()).swap[slot]],
                                       slots := old(Value()).slots - {slot})
    {
      ram[f] := swap[slot];
      assert ram[..] == old(ram[..])[f := swap[..][slot]];
      var _ := swapmap.Unmark(slot);
    }

    /** The counters of `swap_in`. */
    method CountSwapIn()
      requires Valid()
      modifies counts
      ensures Valid()
      ensures
        var c := old(Value()).stats;
        Value() == old(Value()).(stats := c.(swapIns := c.swapIns + 1, disk := c.disk + 1))
    {
      Increment(VMSTAT_PAGE_FAULT_SWAPFILE);
      Increment(VMSTAT_PAGE_FAULT_DISK);
    }

    /** `swap_in`. */
    method SwapIn(f: nat, offset: nat, slept: bool) returns (ok: bool)
      requires Valid()
      modifies swapmap.v, ram, counts, tlb.slots
      ensures Valid()
      ensures ok <==> Vm.SwapIn(old(Value()), f, offset, slept).Ok?
      ensures ok ==> Value() == Vm.SwapIn(old(Value()), f, offset, slept).value
    {
      var slot := offset / PAGE_SIZE;
      if offset % PAGE_SIZE != 0 || slot >= SWAP_SLOTS {
        return false;
      }
      var set_ := swapmap.IsSet(slot);
      if !set_ || f >= ram.Length {
        return false;
      }
      ReadSlot(slot, f);
      CountSwapIn();
      Transfer(slept);
      ok := true;
    }

    // ------------------------------------------------------------- user page frames

    /** The replacement branch of `allocate_user_page`. */
    method EvictVictim(a: SpaceId, va: nat, slept: bool) returns (r: Result<nat>)
      requires Valid()
      modifies this`spaces, cm`last, cm`victim, cm.entries, swapmap.v, swap, counts, tlb.slots
      ensures Valid()
      ensures r.Ok? <==> Evict(old(Value()), a, va, slept).Ok?
      ensures r.Ok? ==> Evict(old(Value()), a, va, slept).value == (Value(), r.value)
    {
      ghost var s0 := Value();
      var v := cm.victim;
      if v >= cm.entries.Length {
        return Panic;
      }
      var offset := SwapOut(v, slept);
      if offset.Panic? {
        return Panic;
      }
      ghost var s1 := Value();
      var e := cm.entries[v];
      if e.space.None? || e.space.value !in spaces {
        return Panic;
      }
      var sp := spaces[e.space.value];
      var found := FindCoarse(sp, e.vaddr);
      if found.None? {
        return Panic;
      }
      var sel := found.value;
      var index := EntryIndex(sp.At(sel).base, sp.At(sel).NumPages(), e.vaddr);
      if index.Panic? {
        return Panic;
      }
      var table := SwapOutEntry(sp.At(sel).table, index.value, offset.value * PAGE_SIZE);
      if table.Panic? {
        return Panic;
      }
      var ok := cm.Replace(a, va);
      if !ok {
        return Panic;
      }
      spaces := spaces[e.space.value := sp.WithTable(sel, table.value)];
      assert Value() == s1.(cm := Retarget(s0.cm, a, va).value, spaces := spaces);
      return Ok(v);
    }

    /** `alloc_user_page`. */
    method AllocUser(a: SpaceId, va: nat, slept: bool) returns (r: Result<nat>)
      requires Valid()
      modifies this`spaces, cm, cm.entries, swapmap.v, swap, counts, tlb.slots
      ensures Valid()
      ensures r.Ok? <==> AllocUserPage(old(Value()), a, va, slept).Ok?
      ensures r.Ok? ==> AllocUserPage(old(Value()), a, va, slept).value == (Value(), r.value)
    {
      ghost var s0 := Value();
      var f := cm.TakeFrame(a, va);
      assert Value() == s0.(cm := TakeUserFrame(s0.cm, a, va).0);
      if f != 0 {
        var ok := cm.Append(f, a, va);
        if !ok {
          return Panic;
        }
        return Ok(f);
      }
      r := EvictVictim(a, va, slept);
    }

    // ------------------------------------------------------------------ page faults

    /** `pt_add_entry` on one page. */
    method AddPageWord(p: Pg, w: Word) returns (ok: bool)
      requires Valid() && IsPage(spaces, p)
      modifies this`spaces
      ensures Valid()
      ensures ok <==> AddWord(old(Value()), p, w).Ok?
      ensures ok ==> Value() == AddWord(old(Value()), p, w).value
    {
      var table := AddEntry(SegOf(spaces, p).table, p.index, w);
      if table.Panic? {
        return false;
      }
      spaces := spaces[p.a := spaces[p.a].WithTable(p.sel, table.value)];
      return true;
    }

    /** The load parameters of `seg_load_page`, found case by case. */
    static method FindLoad(seg: Seg, index: nat) returns (l: Segment.Load)
      ensures l == LoadOf(seg, index)
    {
      var off := seg.base % PAGE_SIZE;
      var dst, len, src;
      if index == 0 {
        dst := off;
        src := seg.fileOffset;
        if seg.fileSize > PAGE_SIZE - off {
          len := PAGE_SIZE - off;
        } else {
          len := seg.fileSize;
        }
      } else if index == seg.NumPages() - 1 {
        dst := 0;
        var before := (seg.NumPages() - 1) * PAGE_SIZE - off;
        src := seg.fileOffset + before;
        if seg.fileSize <= before {
          len := 0;
        } else {
          len := seg.fileSize - before;
        }
      } else {
        dst := 0;
        var before := index * PAGE_SIZE - off;
        src := seg.fileOffset + before;
        if seg.fileSize <= before {
          len := 0;
        } else if seg.fileSize > PAGE_SIZE + before {
          len := PAGE_SIZE;
        } else {
          len := seg.fileSize - before;
        }
      }
      return Segment.Load(dst, len, src);
    }

    /** Stores a whole frame. */
    method FillFrame(f: nat, page: Page)
      requires Valid() && f < ram.Length
      modifies ram
      ensures Valid() && Value() == old(Value()).(ram := old(Value()).ram[f := page])
    {
      ram[f] := page;
      assert ram[..] == old(ram[..])[f := page];
    }

    /** The counters of `seg_load_page`. */
    method CountLoad(len: nat)
      requires Valid()
      modifies counts
      ensures Valid()
      ensures
        var c := old(Value()).stats;
        Value() == old(Value()).(
          stats := if len == 0 then c.(zeroed := c.zeroed + 1) else c.(disk := c.disk + 1, elf := c.elf + 1))
    {
      if len == 0 {
        Increment(VMSTAT_PAGE_FAULT_ZERO);
      } else {
        Increment(VMSTAT_PAGE_FAULT_DISK);
        Increment(VMSTAT_PAGE_FAULT_ELF);
      }
    }

    /** Zeroes a frame, counts the load and reads into the frame. */
    method ReadInto(f: nat, len: nat, page: Page, ghost ok: bool)
      requires Valid() && f < ram.Length
      modifies ram, counts, this`failedLoads
      ensures Valid()
      ensures
        var s := old(Value());
        Value() == s.(
          ram := s.ram[f := page],
          stats := if len == 0 then s.stats.(zeroed := s.stats.zeroed + 1)
                   else s.stats.(disk := s.stats.disk + 1, elf := s.stats.elf + 1),
          failedLoads := if ok then s.failedLoads else s.failedLoads + 1)
    {
      FillFrame(f, ZeroPage());
      CountLoad(len);
      FillFrame(f, page);
      assert old(Value()).ram[f := ZeroPage()][f := page] == old(Value()).ram[f := page];
      failedLoads := if ok then failedLoads else failedLoads + 1;
    }

    /** `seg_load_page`: the frame is zeroed, then filled with as many bytes as the read delivers. */
    method LoadSegmentPage(p: Pg, f: nat, read: ReadOutcome, slept: bool) returns (r: Result<bool>)
      requires Valid() && IsPage(spaces, p)
      modifies ram, counts, tlb.slots, this`failedLoads
      ensures Valid()
      ensures r.Ok? <==> LoadPage(old(Value()), p, f, read, slept).Ok?
      ensures r.Ok? ==> LoadPage(old(Value()), p, f, read, slept).value == (Value(), r.value)
    {
      var seg := SegOf(spaces, p);
      var l := FindLoad(seg, p.index);
      if l.dst + l.len > PAGE_SIZE || f >= ram.Length {
        return Panic;
      }
      var ok := LoadSucceeds(seg, l, read);
      ReadInto(f, l.len, Filled(seg, l, BytesRead(seg, l, read)), ok);
      Transfer(slept);
      return Ok(ok);
    }

    /** First contents of a page. */
    method PopulateFrame(p: Pg, f: nat, read: ReadOutcome, slept: bool) returns (r: Result<bool>)
      requires Valid() && IsPage(spaces, p)
      modifies ram, counts, tlb.slots, this`failedLoads
      ensures Valid()
      ensures r.Ok? <==> Populate(old(Value()), p, f, read, slept).Ok?
      ensures r.Ok? ==> Populate(old(Value()), p, f, read, slept).value == (Value(), r.value)
    {
      if SegOf(spaces, p).perm.StackPerm? {
        if f >= ram.Length {
          return Panic;
        }
        FillFrame(f, ZeroPage());
        Increment(VMSTAT_PAGE_FAULT_ZERO);
        return Ok(true);
      }
      r := LoadSegmentPage(p, f, read, slept);
    }

    /** The branch of `vm_fault` for a page never touched. */
    method FirstTouchPage(p: Pg, va: nat, env: Env) returns (r: Result<(nat, bool)>)
      requires Valid() && IsPage(spaces, p)
      modifies this`spaces, this`failedLoads, cm, cm.entries, swapmap.v, swap, ram, counts, tlb.slots
      ensures Valid()
      ensures r.Ok? <==> FirstTouch(old(Value()), p, va, env).Ok?
      ensures r.Ok? ==> FirstTouch(old(Value()), p, va, env).value == (Value(), r.value.0, r.value.1)
    {
      var fr := AllocUser(p.a, PageFrame(va), env.slept);
      if fr.Panic? || !IsPage(spaces, p) {
        return Panic;
      }
      var f := fr.value;
      var added := AddPageWord(p, f * PAGE_SIZE);
      if !added || !IsPage(spaces, p) {
        return Panic;
      }
      var loaded := PopulateFrame(p, f, env.read, env.readSlept);
      if loaded.Panic? {
        return Panic;
      }
      return Ok((f, loaded.value));
    }

    /** The branch of `vm_fault` for a page swapped out. */
    method BringBackPage(p: Pg, va: nat, env: Env) returns (r: Result<(nat, bool)>)
      requires Valid() && IsPage(spaces, p)
      modifies this`spaces, cm, cm.entries, swapmap.v, swap, ram, counts, tlb.slots
      ensures Valid()
      ensures r.Ok? <==> BringBack(old(Value()), p, va, env).Ok?
      ensures r.Ok? ==> BringBack(old(Value()), p, va, env).value == (Value(), r.value.0, r.value.1)
    {
      var fr := AllocUser(p.a, PageFrame(va), env.slept);
      if fr.Panic? || !IsPage(spaces, p) || !IsSwapped(WordOf(spaces, p)) {
        return Panic;
      }
      var f := fr.value;
      var back := SwapIn(f, SwapOffset(WordOf(spaces, p)), env.readSlept);
      if !back || !IsPage(spaces, p) {
        return Panic;
      }
      var added := AddPageWord(p, f * PAGE_SIZE);
      if !added {
        return Panic;
      }
      return Ok((f, true));
    }

    /** The end of `vm_fault`. */
    method InstallEntry(va: nat, f: nat, writable: bool)
      requires Valid()
      modifies counts, tlb, tlb.slots
      ensures Valid()
      ensures Install(old(Value()), va, f, writable) == Ok(Value())
    {
      var peek := tlb.PeekVictim();
      if peek.Maps? {
        Increment(VMSTAT_TLB_MISS_REPLACE);
      } else {
        Increment(VMSTAT_TLB_MISS_FREE);
      }
      Increment(VMSTAT_TLB_MISS);
      tlb.WriteEntry(Maps(PageFrame(va), f, writable));
    }

    /** `vm_fault`. */
    method HandleFault(kind: FaultKind, va: nat, env: Env) returns (r: Result<Code>)
      requires Valid()
      modifies this`spaces, this`failedLoads, cm, cm.entries, swapmap.v, swap, ram, counts, tlb, tlb.slots
      ensures Valid()
      ensures r.Ok? <==> Fault(old(Value()), kind, va, env).Ok?
      ensures r.Ok? ==> Fault(old(Value()), kind, va, env).value == (Value(), r.value)
    {
      if kind.OtherFault? {
        return Ok(Einval);
      }
      if kind.ReadOnlyFault? {
        return Ok(Eacces);
      }
      if cur.None? {
        return Ok(Efault);
      }
      if cur.value !in spaces {
        return Panic;
      }
      var target := FaultPage(spaces, cur.value, va);
      if target.Panic? {
        return Panic;
      }
      if target.value.None? {
        return Ok(Efault);
      }
      var p := target.value.value;
      if !IsPage(spaces, p) {
        return Panic;
      }
      var writable := SegOf(spaces, p).Writable();
      var resident := Reside(p, va, env);
      if resident.Panic? {
        return Panic;
      }
      if !resident.value.1 {
        return Ok(Efault);
      }
      InstallEntry(va, resident.value.0, writable);
      return Ok(Success);
    }

    /** The middle of `vm_fault`: the three states of a page. */
    method Reside(p: Pg, va: nat, env: Env) returns (r: Result<(nat, bool)>)
      requires Valid() && IsPage(spaces, p)
      modifies this`spaces, this`failedLoads, cm, cm.entries, swapmap.v, swap, ram, counts, tlb.slots
      ensures Valid()
      ensures r.Ok? <==> MakeResident(old(Value()), p, va, env).Ok?
      ensures r.Ok? ==> MakeResident(old(Value()), p, va, env).value == (Value(), r.value.0, r.value.1)
    {
      var w := WordOf(spaces, p);
      if w == PT_EMPTY {
        r := FirstTouchPage(p, va, env);
      } else if IsSwapped(w) {
        r := BringBackPage(p, va, env);
      } else {
        if w % PAGE_SIZE != 0 {
          return Panic;
        }
        Increment(VMSTAT_TLB_RELOAD);
        return Ok((w / PAGE_SIZE, true));
      }
    }

    // ---------------------------------------------------------- address space life

    /** `pt_clear_content`. */
    method ClearContent(words: seq<Word>) returns (ok: bool)
      requires Valid()
      modifies this`swapFrees, cm`last, cm`victim, cm.entries, swapmap.v
      ensures Valid()
      ensures ok <==> ClearFrom(old(Value()), words, 0).Ok?
      ensures ok ==> Value() == ClearFrom(old(Value()), words, 0).value
    {
      var i := 0;
      while i < |words|
        invariant 0 <= i <= |words|
        invariant Valid()
        invariant ClearFrom(old(Value()), words, 0) == ClearFrom(Value(), words, i)
      {
        var cleared := ClearOne(words[i]);
        if !cleared {
          return false;
        }
        i := i + 1;
      }
      return true;
    }

    /** One iteration of `pt_clear_content`; the swapped case is `swap_free`. */
    method ClearOne(w: Word) returns (ok: bool)
      requires Valid()
      modifies this`swapFrees, cm`last, cm`victim, cm.entries, swapmap.v
      ensures Valid()
      ensures ok <==> ClearWord(old(Value()), w).Ok?
      ensures ok ==> Value() == ClearWord(old(Value()), w).value
    {
      if IsSwapped(w) {
        var offset := SwapOffset(w);
        if offset % PAGE_SIZE != 0 || offset / PAGE_SIZE >= SWAP_SLOTS {
          return false;
        }
        var marked := swapmap.IsSet(offset / PAGE_SIZE);
        if !marked {
          return false;
        }
        ok := swapmap.Unmark(offset / PAGE_SIZE);
        swapFrees := swapFrees + 1;
      } else if w != PT_EMPTY {
        ok := cm.FreePageUser(w / PAGE_SIZE);
      } else {
        ok := true;
      }
    }

    /** `as_destroy`. */
    method DestroySpace(a: SpaceId) returns (ok: bool)
      requires Valid() && a in spaces
      modifies this, cm`last, cm`victim, cm.entries, swapmap.v
      ensures Valid()
      ensures ok <==> Destroy(old(Value()), a).Ok?
      ensures ok ==> Value() == Destroy(old(Value()), a).value
    {
      var sp := spaces[a];
      ok := ClearContent(sp.code.table);
      if !ok {
        return;
      }
      ok := ClearContent(sp.data.table);
      if !ok {
        return;
      }
      ok := ClearContent(sp.stack.table);
      if !ok {
        return;
      }
      spaces := spaces - {a};
      if cur == Some(a) {
        cur := None;
      }
    }
  }
}
