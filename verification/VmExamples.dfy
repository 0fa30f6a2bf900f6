/** Short runs of a machine with two usable frames in which the memory manager does not do what its
    comments promise. */
module VmExamples {
  import opened Common
  import opened Coremap
  import opened CoremapBlocks
  import opened CoremapQueue
  import opened PageTable
  import opened Segment
  import opened AddrSpace
  import opened T = Tlb
  import opened Vm
  import opened VmOwn
  import opened VmView
  import opened VmFault
  import opened VmCoherence
  import opened VmDestroy
  import opened VmSteps
  import opened VmAccess
  import opened VmRun
  import opened VmAccounts
  import opened VmTotal
  import opened VmQueue
  import opened VmBytes
  import opened VmStored

  /** The machine at boot: frame 0 and two frames. */
  function Machine(): State {
    State(TinyBoot(), [ZeroPage(), ZeroPage(), ZeroPage()], {}, seq(SWAP_SLOTS, _ => ZeroPage()), map[],
          T.Tlb.Tlb(seq(NUM_TLB, _ => Invalid), 0), None, Stats(0, 0, 0, 0, 0, 0, 0, 0, 0, 0), 0, 0)
  }

  /** A program of three code pages from address 0, whose file part is `file`, and no data. */
  function CodeRegion(file: seq<Byte>): Region {
    Region(0, 3 * PAGE_SIZE, |file|, 0, file, false, false)
  }

  function NoData(): Region {
    Region(0x10_0000, 0, 0, 0, [], true, false)
  }

  function Program(file: seq<Byte>): Space {
    NewSpace(CodeRegion(file), NoData())
  }

  lemma ProgramWf(file: seq<Byte>)
    requires |file| <= PAGE_SIZE
    ensures SpaceWf(Program(file))
  {
  }

  /** A machine with two usable frames, at boot. */
  ghost predicate Tiny(m: State) {
    BootState(m) && m.cm == TinyBoot() && m.tlb.victim == 0
  }

  lemma MachineIsTiny()
    ensures Tiny(Machine())
  {
  }

  lemma KernelGoesOn(states: seq<State>, events: seq<Event>, codes: seq<Code>, e: Event, s': State, code: Code)
    requires IsKernelRun(states, events, codes) && Callable(states[|events|], e)
    requires Vm.Step(states[|events|], e) == Ok((s', code))
    ensures IsKernelRun(states + [s'], events + [e], codes + [code])
  {
    var states', events', codes' := states + [s'], events + [e], codes + [code];
    forall i | 0 <= i < |events'|
      ensures Stepped(states'[i], events'[i], states'[i + 1], codes'[i])
    {
      if i < |events| {
        assert events[i] == events'[i];
        assert Stepped(states[i], events[i], states[i + 1], codes[i]);
      }
    }
  }

  lemma EnabledGoesOn(states: seq<State>, events: seq<Event>, e: Event, s': State)
    requires |states| == |events| + 1 && Enabled(states[|events|], e)
    requires forall i {:trigger events[i]} :: 0 <= i < |events| ==> Enabled(states[i], events[i])
    ensures forall i {:trigger (events + [e])[i]} :: 0 <= i < |events + [e]| ==>
      Enabled((states + [s'])[i], (events + [e])[i])
  {
    forall i | 0 <= i < |events + [e]|
      ensures (states + [s'])[i] == states[i] && (events + [e])[i] == if i < |events| then events[i] else e
    {
    }
  }

  /** A run can go on with an event that does not panic. */
  lemma GoOn(states: seq<State>, events: seq<Event>, codes: seq<Code>, e: Event, s': State, code: Code)
    returns (states': seq<State>, events': seq<Event>, codes': seq<Code>)
    requires IsKernelRun(states, events, codes) && Callable(states[|events|], e)
    requires Vm.Step(states[|events|], e) == Ok((s', code))
    ensures states' == states + [s'] && events' == events + [e] && codes' == codes + [code]
    ensures IsKernelRun(states', events', codes')
    ensures IsVmRun(states, events, codes) && Enabled(states[|events|], e) ==> IsVmRun(states', events', codes')
  {
    states', events', codes' := states + [s'], events + [e], codes + [code];
    KernelGoesOn(states, events, codes, e, s', code);
    if IsVmRun(states, events, codes) && Enabled(states[|events|], e) {
      EnabledGoesOn(states, events, e, s');
    }
  }

  /** The program has been created. */
  function Loaded(m: State, file: seq<Byte>): State {
    m.(spaces := map[7 := Program(file)])
  }

  /** The program has been switched to. */
  function Started(m: State, file: seq<Byte>): State {
    Flush(Loaded(m, file)).(cur := Some(7))
  }

  lemma Begins(m: State, file: seq<Byte>)
    requires m.spaces == map[] && |file| <= PAGE_SIZE
    ensures Enabled(m, Create(7, CodeRegion(file), NoData()))
    ensures Vm.Step(m, Create(7, CodeRegion(file), NoData())) == Ok((Loaded(m, file), Success))
  {
    ProgramWf(file);
    assert m.spaces[7 := Program(file)] == map[7 := Program(file)];
  }

  lemma AtBoot(s: State)
    requires BootState(s)
    ensures IsVmRun([s], [], [])
  {
  }

  lemma Switches(m: State, file: seq<Byte>)
    ensures Enabled(Loaded(m, file), Activate(7))
    ensures Vm.Step(Loaded(m, file), Activate(7)) == Ok((Started(m, file), Success))
  {
  }

  lemma Start(m: State, file: seq<Byte>) returns (states: seq<State>, events: seq<Event>, codes: seq<Code>)
    requires Tiny(m) && |file| <= PAGE_SIZE
    ensures IsVmRun(states, events, codes) && |events| == 2
    ensures states[2] == Started(m, file) && events == [Create(7, CodeRegion(file), NoData()), Activate(7)]
  {
    AtBoot(m);
    Begins(m, file);
    Switches(m, file);
    var create := Create(7, CodeRegion(file), NoData());
    states, events, codes := TwoSteps(m, create, Loaded(m, file), Activate(7), Started(m, file));
  }

  lemma TwoSteps(s0: State, e0: Event, s1: State, e1: Event, s2: State)
    returns (states: seq<State>, events: seq<Event>, codes: seq<Code>)
    requires IsVmRun([s0], [], []) && Enabled(s0, e0) && Enabled(s1, e1)
    requires Vm.Step(s0, e0) == Ok((s1, Success)) && Vm.Step(s1, e1) == Ok((s2, Success))
    ensures IsVmRun(states, events, codes) && |events| == 2 && states[2] == s2 && events == [e0, e1]
  {
    states, events, codes := GoOn([s0], [], [], e0, s1, Success);
    states, events, codes := GoOn(states, events, codes, e1, s2, Success);
  }

  /** Page `i` of the program. */
  function CodePage(i: nat): Pg {
    Pg(7, Code, i)
  }

  lemma FaultsOn(s: State, file: seq<Byte>, i: nat)
    requires i < 3 && 7 in s.spaces && SameLayout(map[7 := Program(file)], s.spaces)
    ensures FaultPage(s.spaces, 7, i * PAGE_SIZE) == Ok(Some(CodePage(i)))
    ensures IsPage(s.spaces, CodePage(i)) && AddrOf(s.spaces, CodePage(i)) == i * PAGE_SIZE
    ensures PageFrame(i * PAGE_SIZE) == i * PAGE_SIZE
    ensures SameSeg(Program(file).code, SegOf(s.spaces, CodePage(i)))
  {
    var spaces := map[7 := Program(file)];
    assert SameSeg(spaces[7].At(Code), s.spaces[7].At(Code));
  }

  /** The program is current, its layout unchanged. */
  ghost predicate Current(s: State, file: seq<Byte>) {
    && Sound(s) && LastOk(s.cm) && s.cur == Some(7)
    && s.spaces.Keys == {7} && SameLayout(map[7 := Program(file)], s.spaces)
  }

  /** It is, and the TLB agrees with its page tables. */
  ghost predicate Running(s: State, file: seq<Byte>) {
    Current(s, file) && Coherent(s)
  }

  lemma StartedRuns(m: State, file: seq<Byte>)
    requires Tiny(m) && |file| <= PAGE_SIZE
    ensures Running(Started(m, file), file)
    ensures Started(m, file).cm == TinyBoot() && Started(m, file).slots == {} && Started(m, file).failedLoads == 0
    ensures Holding(Started(m, file).tlb, [])
  {
    var states, events, codes := Start(m, file);
    RunInv(states, events, codes, 2);
  }

  /** The state a first touch of page `i` returns with, in frame `g`, when no page is replaced. */
  lemma Touch(s: State, file: seq<Byte>, i: nat, env: Env, g: nat, cm': Cm)
    requires Current(s, file) && i < 3 && !env.readSlept
    requires IsPage(s.spaces, CodePage(i)) && WordOf(s.spaces, CodePage(i)) == PT_EMPTY
    requires AllocUserPage(s, 7, i * PAGE_SIZE, env.slept) == Ok((s.(cm := cm'), g)) && g != 0
    requires !NeedsVictim(s.cm, 7, i * PAGE_SIZE)
    ensures Fault(s, ReadFault, i * PAGE_SIZE, env).Ok?
    ensures
      var (s', code) := Fault(s, ReadFault, i * PAGE_SIZE, env).value;
      var ok := LoadSucceeds(Program(file).code, LoadOf(Program(file).code, i), env.read);
      && code == (if ok then Success else Efault)
      && s'.cm == cm' && s'.slots == s.slots && s'.cur == s.cur
      && s'.spaces == SetWord(s.spaces, CodePage(i), FrameWord(g))
      && s'.tlb == AtReturn(s.tlb, Maps(i * PAGE_SIZE, g, false), ok)
      && s'.failedLoads == s.failedLoads + if ok then 0 else 1
  {
    var p, va := CodePage(i), i * PAGE_SIZE;
    FaultsOn(s, file, i);
    FaultPanicsIff(s, ReadFault, va, env);
    FaultUnfolds(s, ReadFault, va, env, p);
    TouchUnfolds(s, file, p, va, env, g, cm');
  }

  lemma TouchUnfolds(s: State, file: seq<Byte>, p: Pg, va: nat, env: Env, g: nat, cm': Cm)
    requires IsPage(s.spaces, p) && p.sel == Code && WordOf(s.spaces, p) == PT_EMPTY && PageFrame(va) == va
    requires AllocUserPage(s, p.a, va, env.slept) == Ok((s.(cm := cm'), g)) && !env.readSlept
    requires MakeResident(s, p, va, env).Ok? && SameSeg(Program(file).code, SegOf(s.spaces, p))
    ensures
      var (s', f, ok) := MakeResident(s, p, va, env).value;
      && ok == LoadSucceeds(Program(file).code, LoadOf(Program(file).code, p.index), env.read)
      && f == g && s'.cm == cm' && s'.slots == s.slots && s'.cur == s.cur
      && s'.spaces == SetWord(s.spaces, p, FrameWord(g)) && s'.tlb == s.tlb
      && s'.failedLoads == s.failedLoads + (if ok then 0 else 1)
  {
    assert SameLayout(s.spaces, s.spaces);
    FirstTouchUnfolds(s, s.(cm := cm'), g, p, va, env);
    LoadIgnoresTable(Program(file).code, SegOf(s.spaces, p), p.index, env.read);
    TouchCounts(s, p, va, env);
  }

  /** The state a fault on a resident page returns with. */
  lemma Reload(s: State, file: seq<Byte>, i: nat, env: Env, g: nat)
    requires Running(s, file) && i < 3
    requires IsPage(s.spaces, CodePage(i)) && WordOf(s.spaces, CodePage(i)) == FrameWord(g) && g > 0
    ensures Fault(s, ReadFault, i * PAGE_SIZE, env).Ok?
    ensures
      var (s', code) := Fault(s, ReadFault, i * PAGE_SIZE, env).value;
      && code == Success && s'.spaces == s.spaces && s'.cur == s.cur
      && s'.tlb == Write(s.tlb, Maps(i * PAGE_SIZE, g, false))
  {
    var p, va := CodePage(i), i * PAGE_SIZE;
    FaultsOn(s, file, i);
    TagsAreExact(g, 0);
    FaultPanicsIff(s, ReadFault, va, env);
    FaultUnfolds(s, ReadFault, va, env, p);
    ReloadUnfolds(s, p, va, env, g);
  }

  lemma ReloadUnfolds(s: State, p: Pg, va: nat, env: Env, g: nat)
    requires IsPage(s.spaces, p) && WordOf(s.spaces, p) == FrameWord(g) && IsResident(FrameWord(g))
    ensures MakeResident(s, p, va, env) == Ok((s.(stats := s.stats.(reloads := s.stats.reloads + 1)), g, true))
  {
  }

  // -------------------------------------------------------------- frames of the machine

  /** The coremap with the first frame given to page 0 of the program. */
  function OneTaken(): Cm {
    Cm([IdleEntry(), Entry(BusyUser, 1, 3, 3, 0, Some(7)), IdleEntry()], 1, 1, 2)
  }

  lemma NothingFreed(cm: Cm)
    requires forall i :: 0 <= i < |cm.entries| ==> !cm.entries[i].kind.Freed?
    ensures FirstFit(cm.entries, 1).None?
  {
    forall k: nat
      ensures !FreeRun(cm.entries, k, 1)
    {
      assert k < |cm.entries| ==> !cm.entries[k].kind.Freed?;
    }
  }

  lemma FirstFrame(s: State, slept: bool)
    requires s.cm == TinyBoot()
    ensures !NeedsVictim(s.cm, 7, 0) && AllocUserPage(s, 7, 0, slept) == Ok((s.(cm := OneTaken()), 1))
  {
    NothingFreed(TinyBoot());
    var cm1 := Steal(TinyBoot(), 1).0;
    assert Enqueue(cm1, 1, 7, 0).value.entries == OneTaken().entries;
  }

  lemma SecondFrame(s: State, slept: bool)
    requires s.cm == OneTaken()
    ensures !NeedsVictim(s.cm, 7, 4096) && AllocUserPage(s, 7, 4096, slept) == Ok((s.(cm := TinyFull()), 2))
  {
    NothingFreed(OneTaken());
    var cm1 := Steal(OneTaken(), 1).0;
    assert Enqueue(cm1, 2, 7, 4096).value.entries == TinyFull().entries;
  }

  lemma NoFrame()
    ensures NeedsVictim(TinyFull(), 7, 8192) && CanRotate(TinyFull())
  {
    NothingFreed(TinyFull());
  }

  // ---------------------------------------------------------------- the TLB of the machine

  /** The TLB holds just these entries, from its first slot on. */
  ghost predicate Holding(t: T.Tlb, entries: seq<TlbEntry>) {
    && TlbWf(t) && |entries| < NUM_TLB && t.victim == |entries|
    && forall i :: 0 <= i < NUM_TLB ==> t.slots[i] == if i < |entries| then entries[i] else Invalid
  }

  lemma Put(t: T.Tlb, entries: seq<TlbEntry>, e: TlbEntry)
    requires Holding(t, entries) && |entries| < 8
    ensures Holding(Write(t, e), entries + [e])
  {
  }

  lemma Misses(t: T.Tlb, entries: seq<TlbEntry>, page: nat)
    requires Holding(t, entries) && forall i :: 0 <= i < |entries| && entries[i].Maps? ==> entries[i].page != page
    ensures Find(t.slots, page).None?
  {
  }

  lemma Hits(s: State, entries: seq<TlbEntry>, k: nat, va: nat)
    requires Holding(s.tlb, entries) && k < |entries| && entries[k].Maps? && entries[k].page == PageFrame(va)
    requires forall i :: 0 <= i < |entries| && entries[i].Maps? && entries[i].page == PageFrame(va) ==> i == k
    ensures Translate(s, va) == Some(entries[k])
  {
    assert s.tlb.slots[k] == entries[k];
  }

  // -------------------------------------------------------------------------- the runs

  /** A fault on page `i` that replaces nothing is enabled when the TLB has no entry for the page. */
  lemma FaultCanHappen(s: State, file: seq<Byte>, i: nat, env: Env)
    requires Running(s, file) && i < 3 && Find(s.tlb.slots, i * PAGE_SIZE).None?
    requires IsPage(s.spaces, CodePage(i)) && !Replacing(s, CodePage(i), i * PAGE_SIZE)
    ensures Enabled(s, TakeFault(ReadFault, i * PAGE_SIZE, env))
  {
    FaultsOn(s, file, i);
  }

  /** The program runs on after a fault that keeps it coherent. */
  lemma StillRunning(s: State, s': State, file: seq<Byte>, p: Pg, w: Word)
    requires Running(s, file) && Inv(s') && LastOk(s'.cm) && s'.cur == s.cur
    requires IsPage(s.spaces, p) && s'.spaces == SetWord(s.spaces, p, w)
    ensures Running(s', file)
  {
    SetWordLayout(s.spaces, p, w);
    LayoutTrans(map[7 := Program(file)], s.spaces, s'.spaces);
  }

  /** A fault on page `i` of the program that replaces nothing. */
  ghost predicate Touches(s: State, i: nat, env: Env, s': State, code: Code) {
    && Enabled(s, TakeFault(ReadFault, i * PAGE_SIZE, env))
    && Fault(s, ReadFault, i * PAGE_SIZE, env) == Ok((s', code))
  }

  /** The first touch of page `i`, when frame `g` is to be had for it. */
  lemma FirstTime(s: State, file: seq<Byte>, i: nat, env: Env, g: nat, cm': Cm, entries: seq<TlbEntry>)
    returns (s': State)
    requires Running(s, file) && i < 3 && !env.readSlept && Holds(s.spaces, CodePage(i), PT_EMPTY)
    requires AllocUserPage(s, 7, i * PAGE_SIZE, env.slept) == Ok((s.(cm := cm'), g)) && g != 0
    requires !NeedsVictim(s.cm, 7, i * PAGE_SIZE) && LastOk(cm') && Holding(s.tlb, entries) && |entries| < 8
    requires forall k :: 0 <= k < |entries| && entries[k].Maps? ==> entries[k].page != i * PAGE_SIZE
    ensures
      var ok := LoadSucceeds(Program(file).code, LoadOf(Program(file).code, i), env.read);
      && Touches(s, i, env, s', if ok then Success else Efault)
      && Running(s', file) && s'.cm == cm' && s'.slots == s.slots
      && s'.spaces == SetWord(s.spaces, CodePage(i), FrameWord(g))
      && Holding(s'.tlb, if ok then entries + [Maps(i * PAGE_SIZE, g, false)] else entries)
      && s'.failedLoads == s.failedLoads + if ok then 0 else 1
  {
    Misses(s.tlb, entries, i * PAGE_SIZE);
    FaultCanHappen(s, file, i, env);
    Touch(s, file, i, env, g, cm');
    s' := Fault(s, ReadFault, i * PAGE_SIZE, env).value.0;
    Put(s.tlb, entries, Maps(i * PAGE_SIZE, g, false));
    TouchKeeps(s, i, env);
    StillRunning(s, s', file, CodePage(i), FrameWord(g));
  }

  lemma TouchKeeps(s: State, i: nat, env: Env)
    requires Inv(s) && Enabled(s, TakeFault(ReadFault, i * PAGE_SIZE, env))
    requires Fault(s, ReadFault, i * PAGE_SIZE, env).Ok?
    ensures Inv(Fault(s, ReadFault, i * PAGE_SIZE, env).value.0)
  {
    StepKeeps(s, TakeFault(ReadFault, i * PAGE_SIZE, env));
  }

  /** A touch of page `i` when it is resident in frame `g`. */
  lemma OnceMore(s: State, file: seq<Byte>, i: nat, env: Env, g: nat, entries: seq<TlbEntry>) returns (s': State)
    requires Running(s, file) && i < 3 && Holds(s.spaces, CodePage(i), FrameWord(g)) && g > 0
    requires Holding(s.tlb, entries) && |entries| < 8
    requires forall k :: 0 <= k < |entries| && entries[k].Maps? ==> entries[k].page != i * PAGE_SIZE
    ensures Touches(s, i, env, s', Success)
    ensures s'.spaces == s.spaces && s'.cur == s.cur && Holding(s'.tlb, entries + [Maps(i * PAGE_SIZE, g, false)])
  {
    Misses(s.tlb, entries, i * PAGE_SIZE);
    TagsAreExact(g, 0);
    FaultCanHappen(s, file, i, env);
    Reload(s, file, i, env, g);
    s' := Fault(s, ReadFault, i * PAGE_SIZE, env).value.0;
    Put(s.tlb, entries, Maps(i * PAGE_SIZE, g, false));
  }

  // ---------------------------------------------------------------------- a failed load

  /** The first page is entered in the page table although its read failed. */
  ghost predicate Failed(s: State) {
    Running(s, [1]) && s.failedLoads == 1 && Holding(s.tlb, []) && Holds(s.spaces, CodePage(0), FrameWord(1))
  }

  /** The read of the program's first page fails. */
  lemma FirstReadFails(m: State) returns (states: seq<State>, events: seq<Event>, codes: seq<Code>)
    requires Tiny(m)
    ensures IsVmRun(states, events, codes) && |events| == 3
    ensures events[2] == TakeFault(ReadFault, 0, Env(false, false, ReadError(0))) && codes[2] == Efault
    ensures states[2] == Started(m, [1])
    ensures Failed(states[3])
  {
    var file: seq<Byte>, fails := [1], Env(false, false, ReadError(0));
    states, events, codes := Start(m, file);
    var s3 := ReadFails(m, fails);
    states, events, codes := GoOn(states, events, codes, TakeFault(ReadFault, 0, fails), s3, Efault);
  }

  lemma ReadFails(m: State, fails: Env) returns (s': State)
    requires Tiny(m) && fails == Env(false, false, ReadError(0))
    ensures Touches(Started(m, [1]), 0, fails, s', Efault) && Failed(s')
  {
    StartedRuns(m, [1]);
    var s := Started(m, [1]);
    FirstFrame(s, false);
    s' := FirstTime(s, [1], 0, fails, 1, OneTaken(), []);
    SetWordAt(s.spaces, CodePage(0), FrameWord(1), CodePage(0));
  }

  /** After a failed load the statistics do not add up, and `vmstats_show` warns. */
  lemma WarningAppears(m: State) returns (states: seq<State>, events: seq<Event>, codes: seq<Code>)
    requires Tiny(m)
    ensures IsKernelRun(states, events, codes) && |events| == 3 && codes[2] == Efault
    ensures var c := states[3].stats; c.tlbMiss != c.reloads + c.zeroed + c.disk
  {
    states, events, codes := FirstReadFails(m);
    FailuresCounted(states, events, codes, 3);
    CountersBalance(states, events, codes, 3);
  }

  /** The byte at address 0 is 1 in the executable; the failed read left 0 in its place. */
  lemma SpoiledByte(m: State)
    ensures
      var s := Started(m, [1]);
      && LoadedPage(SegOf(s.spaces, CodePage(0)), 0, ReadError(0))[0] == 0
      && PageImage(SegOf(s.spaces, CodePage(0)), 0)[0] == 1
  {
    var seg := Program([1]).code;
    assert SegOf(Started(m, [1]).spaces, CodePage(0)) == seg;
    assert ImageByte(seg, seg.PageAddr(0) + 0) == 1;
  }

  lemma PageZero(s: State, s': State)
    requires Running(s, [1]) && s'.spaces == s.spaces
    ensures PageAt(s'.spaces, 7, 0) == Some(CodePage(0))
  {
    FaultsOn(s, [1], 0);
    assert SpaceWf(s.spaces[7]);
    FaultTarget(s.spaces, 7, 0);
  }

  lemma SpoiledThere(m: State, states: seq<State>, events: seq<Event>, codes: seq<Code>)
    requires |events| == 5 && |states| == 6 && |codes| == 5 && states[2] == Started(m, [1])
    requires events[2] == TakeFault(ReadFault, 0, Env(false, false, ReadError(0))) && codes[2] == Efault
    requires events[3] == TakeFault(ReadFault, 0, Env(false, false, Complete)) && codes[3] == Success
    requires Tiny(m)
    ensures Spoiled(states, events, codes, 4, CodePage(0), 0)
  {
    SpoiledByte(m);
    StartedRuns(m, [1]);
    FaultsOn(states[2], [1], 0);
    assert FailedLoad(states[2], events[2], codes[2], CodePage(0));
    assert Spoiled(states, events, codes, 3, CodePage(0), 0);
  }

  /** The run goes on with a second touch of the page, which succeeds without a read, and a load. */
  lemma TouchedAgain(m: State) returns (states: seq<State>, events: seq<Event>, codes: seq<Code>)
    requires Tiny(m)
    ensures IsVmRun(states, events, codes) && |events| == 5
    ensures events[2] == TakeFault(ReadFault, 0, Env(false, false, ReadError(0))) && codes[2] == Efault
    ensures events[3] == TakeFault(ReadFault, 0, Env(false, false, Complete)) && codes[3] == Success
    ensures events[4] == Event.Load(0)
    ensures states[2] == Started(m, [1])
    ensures states[4].cur == Some(7) && 7 in states[4].spaces && PageAt(states[4].spaces, 7, 0) == Some(CodePage(0))
  {
    var works := Env(false, false, Complete);
    var before, events3, codes3 := FirstReadFails(m);
    var s4 := Again(before[3], works);
    states, events, codes := LastTwo(before, events3, codes3, TakeFault(ReadFault, 0, works), s4, Event.Load(0));
  }

  lemma LastTwo(before: seq<State>, events3: seq<Event>, codes3: seq<Code>, e: Event, s': State, e': Event)
    returns (states: seq<State>, events: seq<Event>, codes: seq<Code>)
    requires IsVmRun(before, events3, codes3) && Enabled(before[|events3|], e) && Enabled(s', e')
    requires Vm.Step(before[|events3|], e) == Ok((s', Success)) && Vm.Step(s', e') == Ok((s', Success))
    ensures IsVmRun(states, events, codes)
    ensures states == before + [s', s'] && events == events3 + [e, e'] && codes == codes3 + [Success, Success]
  {
    states, events, codes := GoOn(before, events3, codes3, e, s', Success);
    states, events, codes := GoOn(states, events, codes, e', s', Success);
  }

  lemma Again(s: State, works: Env) returns (s': State)
    requires Failed(s) && works == Env(false, false, Complete)
    ensures Touches(s, 0, works, s', Success)
    ensures Enabled(s', Event.Load(0)) && Vm.Step(s', Event.Load(0)) == Ok((s', Success))
    ensures s'.cur == Some(7) && 7 in s'.spaces && PageAt(s'.spaces, 7, 0) == Some(CodePage(0))
  {
    s' := OnceMore(s, [1], 0, works, 1, []);
    LoadsNow(s');
    PageZero(s, s');
  }

  lemma LoadsNow(s: State)
    requires s.cur.Some? && Holding(s.tlb, [] + [Maps(0, 1, false)])
    ensures Enabled(s, Event.Load(0)) && Vm.Step(s, Event.Load(0)) == Ok((s, Success))
  {
    Hits(s, [] + [Maps(0, 1, false)], 0, 0);
  }

  /** The read of the program's first page fails, the program touches the page again, which succeeds,
      and the byte it then loads was neither stored nor part of the image. */
  lemma FailedLoadIsSeen(m: State) returns (states: seq<State>, events: seq<Event>, codes: seq<Code>)
    requires Tiny(m)
    ensures IsVmRun(states, events, codes) && |events| == 5
    ensures codes[2] == Efault && codes[3] == Success && events[4] == Event.Load(0)
    ensures Translate(states[4], 0).Some? && Translate(states[4], 0).value.frame < |states[4].ram|
    ensures LoadedByte(states[4], 0) != Stored(states, events, 4, CodePage(0))[0]
  {
    states, events, codes := TouchedAgain(m);
    SpoiledThere(m, states, events, codes);
    VmRunIsFlat(states, events, codes);
    assert events[4].Load?;
    LoadReturnsStoredIff(states, events, codes, 4, 0, CodePage(0));
  }

  // --------------------------------------------------------------------- a stale entry

  const FIRST: TlbEntry := Maps(0, 1, false)
  const SECOND: TlbEntry := Maps(4096, 2, false)
  const BOTH: seq<TlbEntry> := [FIRST] + [SECOND]

  /** Two pages touched, memory full, an entry for each in the TLB. */
  ghost predicate Crowded(s: State) {
    && Running(s, []) && s.cm == TinyFull() && s.slots == {}
    && Holds(s.spaces, CodePage(0), FrameWord(1)) && Holds(s.spaces, CodePage(1), FrameWord(2))
    && Holds(s.spaces, CodePage(2), PT_EMPTY) && Holding(s.tlb, BOTH)
  }

  /** One page touched. */
  ghost predicate Begun(s: State) {
    && Running(s, []) && s.cm == OneTaken() && s.slots == {}
    && Holds(s.spaces, CodePage(0), FrameWord(1))
    && Holds(s.spaces, CodePage(1), PT_EMPTY) && Holds(s.spaces, CodePage(2), PT_EMPTY)
    && Holding(s.tlb, [FIRST])
  }

  /** The first touch of a page without a file part. */
  lemma FirstLoad(s: State, i: nat, env: Env, g: nat, cm': Cm, entries: seq<TlbEntry>) returns (s': State)
    requires Running(s, []) && i < 3 && env == Env(false, false, Complete) && Holds(s.spaces, CodePage(i), PT_EMPTY)
    requires AllocUserPage(s, 7, i * PAGE_SIZE, false) == Ok((s.(cm := cm'), g)) && g != 0
    requires !NeedsVictim(s.cm, 7, i * PAGE_SIZE) && LastOk(cm') && Holding(s.tlb, entries) && |entries| < 8
    requires forall k :: 0 <= k < |entries| && entries[k].Maps? ==> entries[k].page != i * PAGE_SIZE
    ensures Touches(s, i, env, s', Success) && Running(s', []) && s'.cm == cm' && s'.slots == s.slots
    ensures s'.spaces == SetWord(s.spaces, CodePage(i), FrameWord(g))
    ensures Holding(s'.tlb, entries + [Maps(i * PAGE_SIZE, g, false)])
  {
    EmptyLoads(i);
    s' := FirstTime(s, [], i, env, g, cm', entries);
  }

  lemma EmptyLoads(i: nat)
    requires i < 3
    ensures LoadSucceeds(Program([]).code, LoadOf(Program([]).code, i), Complete)
  {
  }

  lemma OneTouched(m: State) returns (states: seq<State>, events: seq<Event>, codes: seq<Code>)
    requires Tiny(m)
    ensures IsVmRun(states, events, codes) && |events| == 3 && Begun(states[3])
  {
    var env := Env(false, false, Complete);
    states, events, codes := Start(m, []);
    var s3 := FirstPage(m, env);
    states, events, codes := GoOn(states, events, codes, TakeFault(ReadFault, 0, env), s3, Success);
  }

  lemma FirstPage(m: State, env: Env) returns (s': State)
    requires Tiny(m) && env == Env(false, false, Complete)
    ensures Touches(Started(m, []), 0, env, s', Success) && Begun(s')
  {
    StartedRuns(m, []);
    NothingTouched(m);
    s' := FirstOfThree(Started(m, []), env);
  }

  lemma NothingTouched(m: State)
    ensures forall i: nat :: i < 3 ==> Holds(Started(m, []).spaces, CodePage(i), PT_EMPTY)
  {
  }

  lemma FirstOfThree(s: State, env: Env) returns (s': State)
    requires Running(s, []) && s.cm == TinyBoot() && s.slots == {} && Holding(s.tlb, [])
    requires forall i: nat :: i < 3 ==> Holds(s.spaces, CodePage(i), PT_EMPTY)
    requires env == Env(false, false, Complete)
    ensures Touches(s, 0, env, s', Success) && Begun(s')
  {
    FirstFrame(s, false);
    s' := FirstLoad(s, 0, env, 1, OneTaken(), []);
    WordsThen(s, s');
  }

  lemma TwoTouched(m: State) returns (states: seq<State>, events: seq<Event>, codes: seq<Code>)
    requires Tiny(m)
    ensures IsVmRun(states, events, codes) && |events| == 4 && Crowded(states[4])
  {
    var env := Env(false, false, Complete);
    states, events, codes := OneTouched(m);
    var s4 := SecondPage(states[3], env);
    states, events, codes := GoOn(states, events, codes, TakeFault(ReadFault, 4096, env), s4, Success);
  }

  lemma SecondPage(s: State, env: Env) returns (s': State)
    requires Begun(s) && env == Env(false, false, Complete)
    ensures Touches(s, 1, env, s', Success) && Crowded(s')
  {
    SecondFrame(s, false);
    s' := FirstLoad(s, 1, env, 2, TinyFull(), [FIRST]);
    WordsNow(s, s');
  }

  lemma WordsThen(s2: State, s3: State)
    requires IsPage(s2.spaces, CodePage(0))
    requires Holds(s2.spaces, CodePage(1), PT_EMPTY) && Holds(s2.spaces, CodePage(2), PT_EMPTY)
    requires s3.spaces == SetWord(s2.spaces, CodePage(0), FrameWord(1))
    ensures Holds(s3.spaces, CodePage(0), FrameWord(1))
    ensures Holds(s3.spaces, CodePage(1), PT_EMPTY) && Holds(s3.spaces, CodePage(2), PT_EMPTY)
  {
    SetWordAt(s2.spaces, CodePage(0), FrameWord(1), CodePage(0));
    SetWordAt(s2.spaces, CodePage(0), FrameWord(1), CodePage(1));
    SetWordAt(s2.spaces, CodePage(0), FrameWord(1), CodePage(2));
  }

  lemma WordsNow(s3: State, s4: State)
    requires Holds(s3.spaces, CodePage(0), FrameWord(1)) && IsPage(s3.spaces, CodePage(1))
    requires Holds(s3.spaces, CodePage(2), PT_EMPTY)
    requires s4.spaces == SetWord(s3.spaces, CodePage(1), FrameWord(2))
    ensures Holds(s4.spaces, CodePage(0), FrameWord(1)) && Holds(s4.spaces, CodePage(1), FrameWord(2))
    ensures Holds(s4.spaces, CodePage(2), PT_EMPTY)
  {
    SetWordAt(s3.spaces, CodePage(1), FrameWord(2), CodePage(0));
    SetWordAt(s3.spaces, CodePage(1), FrameWord(2), CodePage(1));
    SetWordAt(s3.spaces, CodePage(1), FrameWord(2), CodePage(2));
  }

  /** Page 2 is in the frame page 0 had; page 0 is in the swap file. */
  ghost predicate Replaced(s: State) {
    && Current(s, []) && s.cm == TinyReplaced()
    && IsPage(s.spaces, CodePage(0)) && IsSwapped(WordOf(s.spaces, CodePage(0)))
    && Holds(s.spaces, CodePage(1), FrameWord(2)) && Holds(s.spaces, CodePage(2), FrameWord(1))
  }

  lemma FlatGoesOn(states: seq<State>, events: seq<Event>, codes: seq<Code>, e: Event, s': State, code: Code)
    requires IsFlatRun(states, events, codes) && e.TakeFault?
    requires IsKernelRun(states + [s'], events + [e], codes + [code])
    ensures IsFlatRun(states + [s'], events + [e], codes + [code])
  {
    var states', events' := states + [s'], events + [e];
    forall i | 0 <= i < |events'|
      ensures Tidy(states'[i], events'[i])
    {
      if i < |events| { assert events'[i] == events[i] && states'[i] == states[i]; }
    }
  }

  /** The program touches a third page and no transfer sleeps: the first page loses its frame, yet the TLB
      still has its entry, so that loads from it read the third page. Every page still shows what the flat
      memory holds. */
  lemma StaleEntryRun(m: State) returns (states: seq<State>, events: seq<Event>, codes: seq<Code>)
    requires Tiny(m)
    ensures IsFlatRun(states, events, codes) && |events| == 5 && codes[4] == Success
    ensures IsVmRun(states[..5], events[..4], codes[..4]) && !Coherent(states[5])
    ensures Translate(states[5], 0) == Some(FIRST) && FIRST.frame == 1 && Replaced(states[5]) && !Lands(states[5], 0)
  {
    var env := Env(false, false, Complete);
    var before, events4, codes4 := TwoTouched(m);
    var s5 := ThirdTouch(before[4], env);
    states, events, codes := GoOn(before, events4, codes4, TakeFault(ReadFault, 8192, env), s5, Success);
    assert states[..5] == before && events[..4] == events4 && codes[..4] == codes4;
    VmRunIsFlat(before, events4, codes4);
    FlatGoesOn(before, events4, codes4, TakeFault(ReadFault, 8192, env), s5, Success);
    DoesNotLand(s5);
  }

  lemma DoesNotLand(s: State)
    requires Replaced(s) && Translate(s, 0) == Some(FIRST)
    ensures !Lands(s, 0)
  {
    TargetIsFirst(s);
    SwappedIsMissed(s, CodePage(0));
  }

  lemma TargetIsFirst(s: State)
    requires Current(s, [])
    ensures Target(s, 0) == Some(CodePage(0))
  {
    FaultsOn(s, [], 0);
    assert SpaceWf(s.spaces[7]);
    FaultTarget(s.spaces, 7, 0);
  }

  lemma SwappedIsMissed(s: State, p: Pg)
    requires IsPage(s.spaces, p) && IsSwapped(WordOf(s.spaces, p))
    requires Translate(s, 0) == Some(FIRST) && Target(s, 0) == Some(p)
    ensures !Lands(s, 0)
  {
    TagsAreExact(1, 0);
  }

  lemma ThirdTouch(s: State, env: Env) returns (s': State)
    requires Crowded(s) && env == Env(false, false, Complete)
    ensures Fault(s, ReadFault, 8192, env) == Ok((s', Success)) && !Coherent(s')
    ensures Translate(s', 0) == Some(FIRST) && Replaced(s')
  {
    var p := CodePage(2);
    FaultsOn(s, [], 2);
    ThirdSucceeds(s, env);
    FaultUnfolds(s, ReadFault, 8192, env, p);
    var (s1, f, ok) := MakeResident(s, p, 8192, env).value;
    ThirdResident(s, env);
    s' := Fault(s, ReadFault, 8192, env).value.0;
    ThirdReturns(s, s1, s');
    ThirdHazard(s, env);
  }

  lemma ThirdReturns(s: State, s1: State, s': State)
    requires Holding(s.tlb, BOTH) && Replaced(s1) && s1.tlb == s.tlb && Install(s1, 8192, 1, false) == Ok(s')
    ensures Translate(s', 0) == Some(FIRST) && Replaced(s')
  {
    Put(s.tlb, BOTH, Maps(8192, 1, false));
    Hits(s', BOTH + [Maps(8192, 1, false)], 0, 0);
  }

  lemma ThirdSucceeds(s: State, env: Env)
    requires Crowded(s) && env == Env(false, false, Complete)
    ensures Fault(s, ReadFault, 8192, env).Ok? && Replacing(s, CodePage(2), 8192)
  {
    FaultsOn(s, [], 2);
    NoFrame();
    assert !SwapFull(s.slots) by { assert 0 !in s.slots; }
    FaultPanicsIff(s, ReadFault, 8192, env);
  }

  lemma ThirdHazard(s: State, env: Env)
    requires Crowded(s) && env == Env(false, false, Complete) && Fault(s, ReadFault, 8192, env).Ok?
    requires Replacing(s, CodePage(2), 8192)
    ensures !Coherent(Fault(s, ReadFault, 8192, env).value.0)
  {
    FaultsOn(s, [], 2);
    ThirdMisses(s);
    ThirdIsHazard(s, env);
    FaultCoherentIff(s, ReadFault, 8192, env, CodePage(2));
  }

  lemma ThirdMisses(s: State)
    requires Holding(s.tlb, BOTH)
    ensures Find(s.tlb.slots, PageFrame(8192)).None?
  {
    Misses(s.tlb, BOTH, 8192);
  }

  lemma ThirdIsHazard(s: State, env: Env)
    requires Crowded(s) && env == Env(false, false, Complete)
    requires IsPage(s.spaces, CodePage(2)) && Replacing(s, CodePage(2), 8192)
    ensures !NoHazard(s, CodePage(2), 8192, env)
  {
    assert Stale(s, 0);
  }

  /** The third page gets the first page's frame, and the first page its swap slot. */
  lemma ThirdResident(s: State, env: Env)
    requires Crowded(s) && env == Env(false, false, Complete) && Replacing(s, CodePage(2), 8192)
    requires MakeResident(s, CodePage(2), 8192, env).Ok?
    ensures
      var (s1, f, ok) := MakeResident(s, CodePage(2), 8192, env).value;
      f == 1 && ok && s1.tlb == s.tlb && Replaced(s1)
  {
    FaultsOn(s, [], 2);
    LoadIgnoresTable(Program([]).code, SegOf(s.spaces, CodePage(2)), 2, env.read);
    MakeResidentSettles(s, CodePage(2), 8192, env);
    MakeResidentKeeps(s, CodePage(2), 8192, env);
    var (s1, f, ok) := MakeResident(s, CodePage(2), 8192, env).value;
    ThirdCoremap(s, env);
    ThirdWords(s, s1, f, FirstContents(s, CodePage(2), env, ok));
  }

  lemma ThirdCoremap(s: State, env: Env)
    requires Crowded(s) && env == Env(false, false, Complete) && Replacing(s, CodePage(2), 8192)
    requires MakeResident(s, CodePage(2), 8192, env).Ok?
    ensures MakeResident(s, CodePage(2), 8192, env).value.0.cm == TinyReplaced()
  {
    FaultsOn(s, [], 2);
    ResidentCoremap(s, CodePage(2), 8192, env);
    TakeUserFrameBlocks(s.cm, 7, 8192);
    assert s.(cm := TakeUserFrame(s.cm, 7, 8192).0) == s;
    EvictCoremap(s, 7, 8192, false);
    TinyReplaces();
  }

  lemma ThirdWords(s: State, s1: State, f: nat, page: Page)
    requires Crowded(s) && MadeResident(s, s1, CodePage(2), f, page) && f == 1 && s1.cm == TinyReplaced()
    ensures Replaced(s1)
  {
    TagsAreExact(1, 0);
    TagsAreExact(2, 0);
    assert SeenAlike(s, s1, f, CodePage(0)) && SeenAlike(s, s1, f, CodePage(1));
    FirstLost(s1);
    LayoutTrans(map[7 := Program([])], s.spaces, s1.spaces);
  }

  lemma FirstLost(s1: State)
    requires Core(s1, |s1.cm.entries|) && Holds(s1.spaces, CodePage(2), FrameWord(1)) && IsPage(s1.spaces, CodePage(0))
    ensures WordOf(s1.spaces, CodePage(0)) != FrameWord(1)
  {
    NotBoth(s1.spaces, s1.cm.entries, s1.slots, CodePage(0), CodePage(2), 1);
  }

  lemma NotBoth(spaces: Spaces, es: seq<Entry>, slots: set<nat>, p: Pg, q: Pg, f: nat)
    requires AllWf(spaces) && Own(spaces, es, slots, |es|) && p != q && f > 0
    requires Holds(spaces, q, FrameWord(f))
    ensures !Holds(spaces, p, FrameWord(f))
  {
    TagsAreExact(f, 0);
    if Holds(spaces, p, FrameWord(f)) { FrameHasOnePage(spaces, es, slots, |es|, p, q, FrameWord(f)); }
  }
}
