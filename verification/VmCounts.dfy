/** Every event counter is the number of events of its kind. */
module VmCounts {
  import opened Common
  import opened Coremap
  import opened CoremapBlocks
  import opened PageTable
  import opened Segment
  import opened AddrSpace
  import opened Tlb
  import opened Vm
  import opened VmOwn
  import opened VmView
  import opened VmFault
  import opened VmCoherence
  import opened VmDestroy
  import opened VmSteps
  import opened VmRun
  import opened VmLayout

  datatype Counter =
    | TlbMiss
    | MissFree
    | MissReplace
    | Invalidation
    | Reload
    | Zeroed
    | Disk
    | FromElf
    | FromSwap
    | SwapWrite

  function Value(c: Stats, counter: Counter): nat {
    match counter
    case TlbMiss => c.tlbMiss
    case MissFree => c.missFree
    case MissReplace => c.missReplace
    case Invalidation => c.invalidations
    case Reload => c.reloads
    case Zeroed => c.zeroed
    case Disk => c.disk
    case FromElf => c.elf
    case FromSwap => c.swapIns
    case SwapWrite => c.swapWrites
  }

  function One(b: bool): nat {
    if b then 1 else 0
  }

  /** No frame is free: all have been handed out and none was given back. */
  ghost predicate MemoryFull(cm: Cm) {
    cm.ramFirst == |cm.entries| && forall i :: 0 <= i < |cm.entries| ==> !cm.entries[i].kind.Freed?
  }

  /** The page has been neither loaded nor written out. */
  predicate IsNew(spaces: Spaces, p: Pg)
    requires IsPage(spaces, p)
  {
    WordOf(spaces, p) == PT_EMPTY
  }

  /** The executable has bytes for the page. */
  ghost predicate HasFileBytes(spaces: Spaces, p: Pg)
    requires p.a in spaces
  {
    var seg := SegOf(spaces, p);
    exists b: nat :: FileByte(seg.base, seg.fileSize, AddrOf(spaces, p), b)
  }

  /** Replacing a page put the faulting thread to sleep. */
  ghost predicate SleepsWriting(s: State, p: Pg, env: Env)
    requires IsPage(s.spaces, p)
  {
    !IsResident(WordOf(s.spaces, p)) && MemoryFull(s.cm) && env.slept
  }

  /** Reading the page put the faulting thread to sleep; a new stack page is not read. */
  predicate SleepsReading(s: State, p: Pg, env: Env)
    requires IsPage(s.spaces, p)
  {
    !IsResident(WordOf(s.spaces, p)) && !(IsNew(s.spaces, p) && p.sel == Stack) && env.readSlept
  }

  /** The slot the fault is about to write is in use, and no sleep flushes it first. */
  ghost predicate ReplacesEntry(s: State, p: Pg, env: Env)
    requires IsPage(s.spaces, p)
  {
    && s.tlb.victim < |s.tlb.slots| && s.tlb.slots[s.tlb.victim].Maps?
    && !SleepsWriting(s, p, env) && !SleepsReading(s, p, env)
  }

  /** How often a fault for page `p` that returns `code` is to be counted. */
  ghost function FaultTimes(counter: Counter, s: State, p: Pg, env: Env, code: Code): nat
    requires IsPage(s.spaces, p)
  {
    var w := WordOf(s.spaces, p);
    match counter
    case TlbMiss => One(code == Success)
    case MissFree => One(code == Success && !ReplacesEntry(s, p, env))
    case MissReplace => One(code == Success && ReplacesEntry(s, p, env))
    case Invalidation => One(SleepsWriting(s, p, env)) + One(SleepsReading(s, p, env))
    case Reload => One(IsResident(w))
    case Zeroed => One(IsNew(s.spaces, p) && (p.sel == Stack || !HasFileBytes(s.spaces, p)))
    case Disk => One(IsSwapped(w) || (IsNew(s.spaces, p) && p.sel != Stack && HasFileBytes(s.spaces, p)))
    case FromElf => One(IsNew(s.spaces, p) && p.sel != Stack && HasFileBytes(s.spaces, p))
    case FromSwap => One(IsSwapped(w))
    case SwapWrite => One(!IsResident(w) && MemoryFull(s.cm))
  }

  /** How often the event is to be counted. */
  ghost function Times(counter: Counter, s: State, e: Event, code: Code): nat {
    match Wanted(s, e)
    case Some(p) => if IsPage(s.spaces, p) then FaultTimes(counter, s, p, e.env, code) else 0
    case None => One(counter == Invalidation && e.Activate?)
  }

  /** How often this happened in the first `k` events. */
  ghost function Tally(counter: Counter, states: seq<State>, events: seq<Event>, codes: seq<Code>, k: nat): nat
    requires k <= |events| < |states| && |codes| == |events|
    decreases k
  {
    if k == 0 then 0
    else
      Tally(counter, states, events, codes, k - 1) + Times(counter, states[k - 1], events[k - 1], codes[k - 1])
  }

  // ---------------------------------------------------------------------- one fault

  lemma NeedsVictimIff(cm: Cm, a: SpaceId, va: nat)
    requires CmInv(cm)
    ensures NeedsVictim(cm, a, va) <==> MemoryFull(cm)
  {
    TakeUserFrameBlocks(cm, a, va);
  }

  function WriteCounted(c: Stats, writes: bool, slept: bool): Stats {
    c.(swapWrites := c.swapWrites + One(writes), invalidations := c.invalidations + One(writes && slept))
  }

  function TouchCounted(c: Stats, stack: bool, load: bool, slept: bool): Stats {
    c.(zeroed := c.zeroed + One(stack || !load), disk := c.disk + One(!stack && load),
       elf := c.elf + One(!stack && load), invalidations := c.invalidations + One(!stack && slept))
  }

  function BackCounted(c: Stats, slept: bool): Stats {
    c.(swapIns := c.swapIns + 1, disk := c.disk + 1, invalidations := c.invalidations + One(slept))
  }

  lemma AllocStats(s: State, a: SpaceId, va: nat, slept: bool)
    requires AllocUserPage(s, a, va, slept).Ok?
    ensures AllocUserPage(s, a, va, slept).value.0.stats == WriteCounted(s.stats, NeedsVictim(s.cm, a, va), slept)
  {
  }

  lemma TouchStats(s: State, s1: State, f: nat, p: Pg, va: nat, env: Env)
    requires IsPage(s.spaces, p) && FirstTouch(s, p, va, env).Ok?
    requires AllocUserPage(s, p.a, PageFrame(va), env.slept) == Ok((s1, f))
    requires SameLayout(s.spaces, s1.spaces) && IsPage(s1.spaces, p)
    ensures
      var seg := SegOf(s.spaces, p);
      FirstTouch(s, p, va, env).value.0.stats ==
        TouchCounted(s1.stats, seg.perm.StackPerm?, LoadOf(seg, p.index).len > 0, env.readSlept)
  {
    var s2 := s1.(spaces := SetWord(s1.spaces, p, FrameWord(f)));
    SetWordLayout(s1.spaces, p, FrameWord(f));
    LayoutTrans(s.spaces, s1.spaces, s2.spaces);
    LayoutPages(s.spaces, s2.spaces, p);
    LoadIgnoresTable(SegOf(s.spaces, p), SegOf(s2.spaces, p), p.index, env.read);
    assert AddWord(s1, p, FrameWord(f)) == Ok(s2);
  }

  lemma BackStats(s: State, s1: State, f: nat, p: Pg, va: nat, env: Env)
    requires IsPage(s.spaces, p) && BringBack(s, p, va, env).Ok?
    requires AllocUserPage(s, p.a, PageFrame(va), env.slept) == Ok((s1, f))
    ensures BringBack(s, p, va, env).value.0.stats == BackCounted(s1.stats, env.readSlept)
  {
  }

  /** The counters after making the page resident. */
  ghost function ResidentCounted(c: Stats, s: State, p: Pg, env: Env): Stats
    requires IsPage(s.spaces, p)
  {
    c.(invalidations := c.invalidations + FaultTimes(Invalidation, s, p, env, Success),
       reloads := c.reloads + FaultTimes(Reload, s, p, env, Success),
       zeroed := c.zeroed + FaultTimes(Zeroed, s, p, env, Success),
       disk := c.disk + FaultTimes(Disk, s, p, env, Success),
       elf := c.elf + FaultTimes(FromElf, s, p, env, Success),
       swapIns := c.swapIns + FaultTimes(FromSwap, s, p, env, Success),
       swapWrites := c.swapWrites + FaultTimes(SwapWrite, s, p, env, Success))
  }

  /** The state with a frame for the page. */
  lemma FrameStats(s: State, p: Pg, va: nat, env: Env) returns (s1: State, f: nat)
    requires Sound(s) && IsPage(s.spaces, p) && !IsResident(WordOf(s.spaces, p))
    requires AllocUserPage(s, p.a, PageFrame(va), env.slept).Ok?
    ensures AllocUserPage(s, p.a, PageFrame(va), env.slept) == Ok((s1, f))
    ensures SameLayout(s.spaces, s1.spaces) && IsPage(s1.spaces, p)
    ensures s1.stats == WriteCounted(s.stats, MemoryFull(s.cm), env.slept)
  {
    var alloc := AllocUserPage(s, p.a, PageFrame(va), env.slept).value;
    s1, f := alloc.0, alloc.1;
    NeedsVictimIff(s.cm, p.a, PageFrame(va));
    AllocStats(s, p.a, PageFrame(va), env.slept);
    AllocReady(s, p.a, PageFrame(va), env.slept);
    ReadyPage(s, s1, p, f);
  }

  /** The page has a load exactly when the executable has bytes for it, and only stack pages have none. */
  lemma NewPage(s: State, p: Pg)
    requires Sound(s) && IsPage(s.spaces, p)
    ensures SegOf(s.spaces, p).perm.StackPerm? <==> p.sel == Stack
    ensures LoadOf(SegOf(s.spaces, p), p.index).len > 0 <==> HasFileBytes(s.spaces, p)
  {
    assert SpaceWf(s.spaces[p.a]);
    LoadIsEmptyIff(SegOf(s.spaces, p), p.index);
  }

  lemma NewCounted(s: State, p: Pg, env: Env, stack: bool, load: bool)
    requires IsPage(s.spaces, p) && IsNew(s.spaces, p)
    requires (stack <==> p.sel == Stack) && (load <==> HasFileBytes(s.spaces, p))
    ensures TouchCounted(WriteCounted(s.stats, MemoryFull(s.cm), env.slept), stack, load, env.readSlept) ==
      ResidentCounted(s.stats, s, p, env)
  {
  }

  lemma SwappedCounted(s: State, p: Pg, env: Env)
    requires IsPage(s.spaces, p) && IsSwapped(WordOf(s.spaces, p))
    ensures BackCounted(WriteCounted(s.stats, MemoryFull(s.cm), env.slept), env.readSlept) ==
      ResidentCounted(s.stats, s, p, env)
  {
  }

  lemma NewStats(s: State, p: Pg, va: nat, env: Env)
    requires Sound(s) && IsPage(s.spaces, p) && IsNew(s.spaces, p) && FirstTouch(s, p, va, env).Ok?
    ensures FirstTouch(s, p, va, env).value.0.stats == ResidentCounted(s.stats, s, p, env)
  {
    var s1, f := FrameStats(s, p, va, env);
    TouchStats(s, s1, f, p, va, env);
    NewPage(s, p);
    var seg := SegOf(s.spaces, p);
    NewCounted(s, p, env, seg.perm.StackPerm?, LoadOf(seg, p.index).len > 0);
  }

  lemma SwappedStats(s: State, p: Pg, va: nat, env: Env)
    requires Sound(s) && IsPage(s.spaces, p) && IsSwapped(WordOf(s.spaces, p)) && BringBack(s, p, va, env).Ok?
    ensures BringBack(s, p, va, env).value.0.stats == ResidentCounted(s.stats, s, p, env)
  {
    var s1, f := FrameStats(s, p, va, env);
    BackStats(s, s1, f, p, va, env);
    SwappedCounted(s, p, env);
  }

  lemma ReloadStats(s: State, p: Pg, va: nat, env: Env)
    requires IsPage(s.spaces, p) && IsResident(WordOf(s.spaces, p)) && MakeResident(s, p, va, env).Ok?
    ensures MakeResident(s, p, va, env).value.0.stats == ResidentCounted(s.stats, s, p, env)
  {
    var c := s.stats;
    assert MakeResident(s, p, va, env).value.0.stats == c.(reloads := c.reloads + 1);
  }

  lemma ResidentStats(s: State, p: Pg, va: nat, env: Env)
    requires Sound(s) && IsPage(s.spaces, p) && MakeResident(s, p, va, env).Ok?
    ensures MakeResident(s, p, va, env).value.0.stats == ResidentCounted(s.stats, s, p, env)
  {
    var w := WordOf(s.spaces, p);
    if w == PT_EMPTY {
      NewStats(s, p, va, env);
    } else if IsSwapped(w) {
      SwappedStats(s, p, va, env);
    } else {
      ReloadStats(s, p, va, env);
    }
  }

  /** A fault counts what it did. */
  lemma FaultStats(s: State, kind: FaultKind, va: nat, env: Env, counter: Counter)
    requires Sound(s) && Fault(s, kind, va, env).Ok?
    ensures
      var (s', code) := Fault(s, kind, va, env).value;
      Value(s'.stats, counter) == Value(s.stats, counter) + Times(counter, s, TakeFault(kind, va, env), code)
  {
    match Wanted(s, TakeFault(kind, va, env))
    case None => NothingWanted(s, kind, va, env);
    case Some(p) =>
      var s1, f, ok := PageWanted(s, kind, va, env, p);
      ResidentStats(s, p, va, env);
      FlushedIff(s, p, va, env);
      if ok { InstallStats(s, s1, va, f, SegOf(s.spaces, p).Writable(), p, env); }
      Counted(s, s1.stats, Fault(s, kind, va, env).value.0.stats, p, env, ok, counter);
  }

  /** Writing the TLB counts a miss, by whether the slot is in use. */
  lemma InstallStats(s: State, s1: State, va: nat, f: nat, writable: bool, p: Pg, env: Env)
    requires IsPage(s.spaces, p) && Install(s1, va, f, writable).Ok?
    requires s1.tlb ==
      if SleepsWriting(s, p, env) || SleepsReading(s, p, env) then Invalidate(s.tlb) else s.tlb
    ensures Install(s1, va, f, writable).value.stats == MissCounted(s1.stats, ReplacesEntry(s, p, env))
  {
  }

  function MissCounted(c: Stats, replacing: bool): Stats {
    c.(tlbMiss := c.tlbMiss + 1, missFree := c.missFree + One(!replacing),
       missReplace := c.missReplace + One(replacing))
  }

  lemma Counted(s: State, c1: Stats, c2: Stats, p: Pg, env: Env, ok: bool, counter: Counter)
    requires IsPage(s.spaces, p) && c1 == ResidentCounted(s.stats, s, p, env)
    requires c2 == if ok then MissCounted(c1, ReplacesEntry(s, p, env)) else c1
    ensures Value(c2, counter) ==
      Value(s.stats, counter) + FaultTimes(counter, s, p, env, if ok then Success else Efault)
  {
  }

  lemma FlushedIff(s: State, p: Pg, va: nat, env: Env)
    requires Sound(s) && IsPage(s.spaces, p)
    ensures Flushed(s, p, va, env) <==> SleepsWriting(s, p, env) || SleepsReading(s, p, env)
  {
    assert SpaceWf(s.spaces[p.a]);
    NeedsVictimIff(s.cm, p.a, PageFrame(va));
  }

  lemma {:induction false} ClearStats(s: State, words: seq<Word>, i: nat)
    requires i <= |words| && ClearFrom(s, words, i).Ok?
    ensures ClearFrom(s, words, i).value.stats == s.stats
    decreases |words| - i
  {
    if i < |words| { ClearStats(ClearWord(s, words[i]).value, words, i + 1); }
  }

  lemma DestroyStats(s: State, a: SpaceId)
    requires a in s.spaces && Destroy(s, a).Ok?
    ensures Destroy(s, a).value.stats == s.stats
  {
    var sp := s.spaces[a];
    var s1 := ClearFrom(s, sp.code.table, 0).value;
    var s2 := ClearFrom(s1, sp.data.table, 0).value;
    ClearStats(s, sp.code.table, 0);
    ClearStats(s1, sp.data.table, 0);
    ClearStats(s2, sp.stack.table, 0);
  }

  lemma StepStats(s: State, e: Event, counter: Counter)
    requires Sound(s) && Vm.Step(s, e).Ok?
    ensures
      var (s', code) := Vm.Step(s, e).value;
      Value(s'.stats, counter) == Value(s.stats, counter) + Times(counter, s, e, code)
  {
    match e
    case TakeFault(kind, va, env) => FaultStats(s, kind, va, env, counter);
    case Exit(a) => DestroyStats(s, a);
    case _ =>
  }

  lemma NextStats(states: seq<State>, events: seq<Event>, codes: seq<Code>, k: nat, counter: Counter)
    requires IsKernelRun(states, events, codes) && k < |events|
    ensures Value(states[k + 1].stats, counter) ==
      Value(states[k].stats, counter) + Times(counter, states[k], events[k], codes[k])
  {
    KernelRunSound(states, events, codes, k);
    StepStats(states[k], events[k], counter);
    assert Stepped(states[k], events[k], states[k + 1], codes[k]);
  }

  /** In every reachable state each counter is the number of times its kind of event happened. */
  lemma {:induction false} CountersExact(states: seq<State>, events: seq<Event>, codes: seq<Code>, k: nat,
                                         counter: Counter)
    requires IsKernelRun(states, events, codes) && k <= |events|
    ensures Value(states[k].stats, counter) == Tally(counter, states, events, codes, k)
    decreases k
  {
    if k > 0 {
      CountersExact(states, events, codes, k - 1, counter);
      NextStats(states, events, codes, k - 1, counter);
    }
  }

  /** The round-robin position after so many installs. */
  function SlotAfter(victim: nat, installs: nat): nat {
    if installs == 0 then victim else (SlotAfter(victim, installs - 1) + 1) % NUM_TLB
  }

  lemma {:induction false} SlotIsModulo(victim: nat, installs: nat)
    requires victim < NUM_TLB
    ensures SlotAfter(victim, installs) == (victim + installs) % NUM_TLB
  {
    if installs > 0 { SlotIsModulo(victim, installs - 1); }
  }

  lemma {:induction false} SlotNext(victim: nat, installs: nat, more: nat)
    ensures SlotAfter(SlotAfter(victim, installs), more) == SlotAfter(victim, installs + more)
    decreases more
  {
    if more > 0 { SlotNext(victim, installs, more - 1); }
  }

  /** The position moves with the miss counter. */
  ghost predicate Advances(s: State, s': State) {
    && s.stats.tlbMiss <= s'.stats.tlbMiss
    && s'.tlb.victim == SlotAfter(s.tlb.victim, s'.stats.tlbMiss - s.stats.tlbMiss)
  }

  lemma VictimStep(s: State, e: Event)
    requires Sound(s) && Callable(s, e) && Vm.Step(s, e).Ok?
    ensures Advances(s, Vm.Step(s, e).value.0)
  {
    match e
    case TakeFault(kind, va, env) => FaultVictim(s, kind, va, env);
    case Exit(a) =>
      DestroyKeeps(s, a);
      DestroyStats(s, a);
    case _ =>
  }

  lemma ResidentNoMiss(s: State, p: Pg, va: nat, env: Env)
    requires Sound(s) && IsPage(s.spaces, p) && MakeResident(s, p, va, env).Ok?
    ensures MakeResident(s, p, va, env).value.0.stats.tlbMiss == s.stats.tlbMiss
  {
    ResidentStats(s, p, va, env);
  }

  lemma InstallVictim(s: State, s1: State, va: nat, f: nat, writable: bool)
    requires Install(s1, va, f, writable).Ok?
    requires s1.tlb.victim == s.tlb.victim && s1.stats.tlbMiss == s.stats.tlbMiss
    ensures Advances(s, Install(s1, va, f, writable).value)
  {
    assert SlotAfter(s.tlb.victim, 1) == (SlotAfter(s.tlb.victim, 0) + 1) % NUM_TLB;
  }

  lemma PageVictim(s: State, kind: FaultKind, va: nat, env: Env, p: Pg)
    requires Sound(s) && Fault(s, kind, va, env).Ok? && Wanted(s, TakeFault(kind, va, env)) == Some(p)
    ensures Advances(s, Fault(s, kind, va, env).value.0)
  {
    var s1, f, ok := PageWanted(s, kind, va, env, p);
    ResidentNoMiss(s, p, va, env);
    if ok { InstallVictim(s, s1, va, f, SegOf(s.spaces, p).Writable()); }
  }

  lemma FaultVictim(s: State, kind: FaultKind, va: nat, env: Env)
    requires Sound(s) && Fault(s, kind, va, env).Ok?
    ensures Advances(s, Fault(s, kind, va, env).value.0)
  {
    match Wanted(s, TakeFault(kind, va, env))
    case None => NothingWanted(s, kind, va, env);
    case Some(p) => PageVictim(s, kind, va, env, p);
  }

  lemma {:induction false} VictimOverRuns(states: seq<State>, events: seq<Event>, codes: seq<Code>, k: nat)
    requires IsKernelRun(states, events, codes) && k <= |events|
    ensures states[k].tlb.victim == SlotAfter(states[0].tlb.victim, states[k].stats.tlbMiss)
    decreases k
  {
    if k > 0 {
      VictimOverRuns(states, events, codes, k - 1);
      KernelRunSound(states, events, codes, k - 1);
      var s, s' := states[k - 1], states[k];
      assert Stepped(s, events[k - 1], s', codes[k - 1]);
      VictimStep(s, events[k - 1]);
      SlotNext(states[0].tlb.victim, s.stats.tlbMiss, s'.stats.tlbMiss - s.stats.tlbMiss);
    }
  }

  /** The slot the next fault writes is the number of misses so far, modulo the size of the TLB. */
  lemma VictimIsMisses(states: seq<State>, events: seq<Event>, codes: seq<Code>, k: nat)
    requires IsKernelRun(states, events, codes) && k <= |events|
    ensures states[k].tlb.victim == (states[0].tlb.victim + states[k].stats.tlbMiss) % NUM_TLB
  {
    VictimOverRuns(states, events, codes, k);
    SlotIsModulo(states[0].tlb.victim, states[k].stats.tlbMiss);
  }
}
