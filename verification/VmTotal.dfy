/** Which assertions and panics of the memory manager can be reached, exactly, while the FIFO
    list is intact. */
module VmTotal {
  import opened Common
  import opened Coremap
  import opened CoremapBlocks
  import opened CoremapQueue
  import opened PageTable
  import opened Segment
  import opened AddrSpace
  import opened Tlb
  import opened Vm
  import opened VmOwn
  import opened VmView
  import opened VmFault
  import opened VmCoherence
  import opened VmDestroy
  import opened VmSteps
  import opened VmRun

  // ------------------------------------------------------------------ replacement

  ghost predicate SwapFull(slots: set<nat>) {
    forall t :: 0 <= t < SWAP_SLOTS ==> t in slots
  }

  /** The list has a victim to rotate: a user frame with a successor. */
  predicate CanRotate(cm: Cm) {
    && cm.victim < |cm.entries| && cm.entries[cm.victim].kind.BusyUser?
    && cm.last < |cm.entries| && cm.entries[cm.victim].next != cm.Invalid()
  }

  /** With an intact list that means two queued frames. */
  lemma QueueRotates(cm: Cm, q: seq<nat>)
    requires CmInv(cm) && Queue(cm, q)
    ensures CanRotate(cm) <==> |q| >= 2
  {
    if q != [] { assert q[0] in q; }
  }

  /** A replacement fails only for want of a victim to rotate or of swap space: the victim's
      segment is found, its index is in range, its word is resident. */
  lemma EvictPanicsIff(s: State, a: SpaceId, va: nat, slept: bool)
    requires Core(s, |s.cm.entries|)
    ensures Evict(s, a, va, slept).Ok? <==> CanRotate(s.cm) && !SwapFull(s.slots)
  {
    RetargetIff(s.cm, a, va);
    EvictNeeds(s, a, va, slept);
    if CanRotate(s.cm) && !SwapFull(s.slots) {
      var v := s.cm.victim;
      assert UserFrame(s.cm.entries, v) && v != 0;
      var p := VictimPage(s.spaces, s.cm.entries, s.slots, v);
      TagsAreExact(v, 0);
      EvictSucceeds(s, p, a, va, slept);
    }
  }

  lemma RetargetIff(cm: Cm, a: SpaceId, va: nat)
    requires CmInv(cm)
    ensures Retarget(cm, a, va).Ok? <==> CanRotate(cm)
  {
  }

  lemma EvictNeeds(s: State, a: SpaceId, va: nat, slept: bool)
    ensures Evict(s, a, va, slept).Ok? ==> Retarget(s.cm, a, va).Ok? && !SwapFull(s.slots)
  {
  }

  lemma EvictSucceeds(s: State, p: Pg, a: SpaceId, va: nat, slept: bool)
    requires 0 < s.cm.victim < |s.cm.entries| == |s.ram| && |s.swap| == SWAP_SLOTS && !SwapFull(s.slots)
    requires IsPage(s.spaces, p) && IsResident(WordOf(s.spaces, p)) && Retarget(s.cm, a, va).Ok?
    requires var e := s.cm.entries[s.cm.victim];
      && e.space == Some(p.a)
      && FindCoarse(s.spaces[p.a], e.vaddr) == Some(p.sel)
      && EntryIndex(SegOf(s.spaces, p).base, SegOf(s.spaces, p).NumPages(), e.vaddr) == Ok(p.index)
    ensures Evict(s, a, va, slept).Ok?
  {
    assert LeastFreeFrom(s.slots, 0).Some?;
  }

  /** The last allocated frame is a frame or none. */
  predicate LastOk(cm: Cm) {
    cm.last <= cm.Invalid()
  }

  lemma AllocPanicsIff(s: State, a: SpaceId, va: nat, slept: bool)
    requires Core(s, |s.cm.entries|) && LastOk(s.cm)
    ensures AllocUserPage(s, a, va, slept).Ok? <==>
      !NeedsVictim(s.cm, a, va) || (CanRotate(s.cm) && !SwapFull(s.slots))
  {
    TakeUserFrameBlocks(s.cm, a, va);
    if NeedsVictim(s.cm, a, va) {
      assert s.(cm := TakeUserFrame(s.cm, a, va).0) == s;
      EvictPanicsIff(s, a, va, slept);
    }
  }

  // ---------------------------------------------------------------------- faults

  lemma FirstTouchSucceeds(s: State, p: Pg, va: nat, env: Env)
    requires Core(s, |s.cm.entries|) && IsPage(s.spaces, p) && WordOf(s.spaces, p) == PT_EMPTY
    requires AddrOf(s.spaces, p) == PageFrame(va) && AllocUserPage(s, p.a, PageFrame(va), env.slept).Ok?
    ensures FirstTouch(s, p, va, env).Ok?
  {
    AllocReady(s, p.a, PageFrame(va), env.slept);
    var (s1, f) := AllocUserPage(s, p.a, PageFrame(va), env.slept).value;
    ReadyPage(s, s1, p, f);
    FillSucceeds(s1, p, f, env.read, env.readSlept);
    FirstTouchFrom(s, s1, f, p, va, env);
  }

  lemma FirstTouchFrom(s: State, s1: State, f: nat, p: Pg, va: nat, env: Env)
    requires IsPage(s.spaces, p) && IsPage(s1.spaces, p) && f < |s1.ram|
    requires AllocUserPage(s, p.a, PageFrame(va), env.slept) == Ok((s1, f))
    requires AddWord(s1, p, FrameWord(f)) == Ok(s1.(spaces := SetWord(s1.spaces, p, FrameWord(f))))
    requires
      var s2 := s1.(spaces := SetWord(s1.spaces, p, FrameWord(f)));
      IsPage(s2.spaces, p) && LoadPage(s2, p, f, env.read, env.readSlept).Ok?
    ensures FirstTouch(s, p, va, env).Ok?
  {
  }

  /** A ready frame can be entered in the table and filled. */
  lemma FillSucceeds(s1: State, p: Pg, f: nat, read: ReadOutcome, slept: bool)
    requires AllWf(s1.spaces) && IsPage(s1.spaces, p) && f < |s1.ram| && !IsResident(WordOf(s1.spaces, p))
    ensures AddWord(s1, p, FrameWord(f)) == Ok(s1.(spaces := SetWord(s1.spaces, p, FrameWord(f))))
    ensures
      var s2 := s1.(spaces := SetWord(s1.spaces, p, FrameWord(f)));
      IsPage(s2.spaces, p) && LoadPage(s2, p, f, read, slept).Ok?
  {
    var spaces2 := SetWord(s1.spaces, p, FrameWord(f));
    SetWordWf(s1.spaces, p, FrameWord(f));
    SetWordAt(s1.spaces, p, FrameWord(f), p);
    SegmentIsWf(spaces2, p);
    DemandIsEager(SegOf(spaces2, p), p.index);
  }

  lemma BringBackSucceeds(s: State, p: Pg, va: nat, env: Env)
    requires Core(s, |s.cm.entries|) && IsPage(s.spaces, p) && IsSwapped(WordOf(s.spaces, p))
    requires AddrOf(s.spaces, p) == PageFrame(va) && AllocUserPage(s, p.a, PageFrame(va), env.slept).Ok?
    ensures BringBack(s, p, va, env).Ok?
  {
    AllocReady(s, p.a, PageFrame(va), env.slept);
    var (s1, f) := AllocUserPage(s, p.a, PageFrame(va), env.slept).value;
    ReadyPage(s, s1, p, f);
    assert Backed(s1.spaces, s1.cm.entries, s1.slots, p);
    BringBackFrom(s, s1, f, p, va, env);
  }

  lemma BringBackFrom(s: State, s1: State, f: nat, p: Pg, va: nat, env: Env)
    requires IsPage(s.spaces, p) && IsPage(s1.spaces, p) && f < |s1.ram| && |s1.swap| == SWAP_SLOTS
    requires AllocUserPage(s, p.a, PageFrame(va), env.slept) == Ok((s1, f))
    requires IsSwapped(WordOf(s1.spaces, p))
    requires BackedWord(s1.cm.entries, s1.slots, p.a, AddrOf(s1.spaces, p), WordOf(s1.spaces, p))
    ensures BringBack(s, p, va, env).Ok?
  {
    var w := WordOf(s1.spaces, p);
    assert SwapOffset(w) / PAGE_SIZE == w / PAGE_SIZE && SwapOffset(w) % PAGE_SIZE == 0;
  }

  lemma ResidentPanicsIff(s: State, p: Pg, va: nat, env: Env)
    requires Core(s, |s.cm.entries|) && LastOk(s.cm) && IsPage(s.spaces, p)
    requires AddrOf(s.spaces, p) == PageFrame(va)
    ensures MakeResident(s, p, va, env).Ok? <==>
      || IsResident(WordOf(s.spaces, p))
      || !NeedsVictim(s.cm, p.a, PageFrame(va))
      || (CanRotate(s.cm) && !SwapFull(s.slots))
  {
    var w := WordOf(s.spaces, p);
    AllocPanicsIff(s, p.a, PageFrame(va), env.slept);
    assert Backed(s.spaces, s.cm.entries, s.slots, p);
    if AllocUserPage(s, p.a, PageFrame(va), env.slept).Ok? {
      if w == PT_EMPTY {
        FirstTouchSucceeds(s, p, va, env);
      } else if IsSwapped(w) {
        BringBackSucceeds(s, p, va, env);
      }
    }
  }

  /** The fault is for a page outside memory and no frame is free. */
  ghost predicate MustReplace(s: State, kind: FaultKind, va: nat) {
    && (kind.ReadFault? || kind.WriteFault?)
    && s.cur.Some? && s.cur.value in s.spaces
    && match FaultPage(s.spaces, s.cur.value, va)
       case Ok(Some(p)) =>
         IsPage(s.spaces, p) && !IsResident(WordOf(s.spaces, p)) && NeedsVictim(s.cm, p.a, PageFrame(va))
       case _ => false
  }

  /** `vm_fault` panics exactly when a page has to be replaced and either the list has no victim to
      rotate or the swap file is full. Every other assertion on its path holds, intact list or not. */
  lemma FaultPanicsIff(s: State, kind: FaultKind, va: nat, env: Env)
    requires Sound(s) && LastOk(s.cm)
    ensures Fault(s, kind, va, env).Panic? <==>
      MustReplace(s, kind, va) && (!CanRotate(s.cm) || SwapFull(s.slots))
  {
    if (kind.ReadFault? || kind.WriteFault?) && s.cur.Some? {
      assert SpaceWf(s.spaces[s.cur.value]);
      FaultTarget(s.spaces, s.cur.value, va);
      var target := FaultPage(s.spaces, s.cur.value, va).value;
      if target.Some? {
        var p := target.value;
        ResidentPanicsIff(s, p, va, env);
        FaultPanicsAsResident(s, kind, va, env, p);
      }
    }
  }

  lemma FaultPanicsAsResident(s: State, kind: FaultKind, va: nat, env: Env, p: Pg)
    requires Core(s, |s.cm.entries|) && (kind.ReadFault? || kind.WriteFault?)
    requires s.cur == Some(p.a) && IsPage(s.spaces, p) && AddrOf(s.spaces, p) == PageFrame(va)
    requires FaultPage(s.spaces, p.a, va) == Ok(Some(p))
    ensures Fault(s, kind, va, env).Ok? <==> MakeResident(s, p, va, env).Ok?
  {
    if MakeResident(s, p, va, env).Ok? {
      ResidentTlbWf(s, p, va, env);
    }
  }

  lemma ResidentTlbWf(s: State, p: Pg, va: nat, env: Env)
    requires Core(s, |s.cm.entries|) && IsPage(s.spaces, p)
    requires AddrOf(s.spaces, p) == PageFrame(va) && MakeResident(s, p, va, env).Ok?
    ensures TlbWf(MakeResident(s, p, va, env).value.0.tlb)
  {
    MakeResidentKeeps(s, p, va, env);
  }

  // ------------------------------------------------------------------------- exit

  /** The links hold a full doubly linked list of the user frames. */
  ghost predicate FullList(cm: Cm) {
    exists q :: Queue(cm, q) && (q == [] || HeadClean(cm, q))
  }

  lemma ClearWordSucceeds(s: State, spaces: Spaces, p: Pg)
    requires ClearInv(s, spaces) && IsPage(spaces, p) && FullList(s.cm)
    ensures ClearWord(s, WordOf(spaces, p)).Ok? && FullList(ClearWord(s, WordOf(spaces, p)).value.cm)
  {
    var w := WordOf(spaces, p);
    assert Backed(spaces, s.cm.entries, s.slots, p);
    if IsSwapped(w) {
      assert SwapOffset(w) / PAGE_SIZE == w / PAGE_SIZE && SwapOffset(w) % PAGE_SIZE == 0;
    } else if w != PT_EMPTY {
      FreeKeepsFullList(s.cm, w / PAGE_SIZE);
    }
  }

  /** Any user frame of a full list can be freed, and the list stays full. */
  lemma FreeKeepsFullList(cm: Cm, f: nat)
    requires CmInv(cm) && FullList(cm) && UserFrame(cm.entries, f)
    ensures FreeUser(cm, f).Ok? && FullList(FreeUser(cm, f).value)
  {
    var q :| Queue(cm, q) && (q == [] || HeadClean(cm, q));
    var k :| 0 <= k < |q| && q[k] == f;
    FreeKeepsQueueIff(cm, q, k);
    assert Queue(FreeUser(cm, f).value, Without(q, k));
  }

  lemma {:induction false} ClearFromSucceeds(s: State, spaces: Spaces, a: SpaceId, sel: Sel, words: seq<Word>, i: nat)
    requires a in spaces && i <= |words| && FullList(s.cm)
    requires ClearInv(s, ClearedTo(spaces, a, sel, words, i))
    ensures ClearFrom(s, words, i).Ok? && FullList(ClearFrom(s, words, i).value.cm)
    decreases |words| - i
  {
    if i < |words| {
      ClearOneMore(spaces, a, sel, words, i);
      var p := Pg(a, sel, i);
      ClearWordSucceeds(s, ClearedTo(spaces, a, sel, words, i), p);
      ClearWordKeeps(s, ClearedTo(spaces, a, sel, words, i), p);
      ClearFromSucceeds(ClearWord(s, words[i]).value, spaces, a, sel, words, i + 1);
    }
  }

  lemma ClearTableSucceeds(s: State, spaces: Spaces, a: SpaceId, sel: Sel)
    requires a in spaces && ClearInv(s, spaces) && FullList(s.cm)
    ensures
      var words := spaces[a].At(sel).table;
      && ClearFrom(s, words, 0).Ok?
      && FullList(ClearFrom(s, words, 0).value.cm)
      && ClearInv(ClearFrom(s, words, 0).value, ClearedTo(spaces, a, sel, words, |words|))
  {
    NothingCleared(spaces, a, sel);
    ClearFromSucceeds(s, spaces, a, sel, spaces[a].At(sel).table, 0);
    ClearTableKeeps(s, spaces, a, sel);
  }

  /** While the list is fully doubly linked, which is so until the first replacement, destroying an
      address space trips no assertion, and the list stays fully linked. */
  lemma ExitCannotPanic(s: State, a: SpaceId)
    requires Core(s, |s.cm.entries|) && a in s.spaces && FullList(s.cm)
    ensures Destroy(s, a).Ok? && FullList(Destroy(s, a).value.cm)
  {
    var sp := s.spaces[a];
    var spaces1 := ClearedTo(s.spaces, a, Code, sp.code.table, |sp.code.table|);
    var spaces2 := ClearedTo(spaces1, a, Data, sp.data.table, |sp.data.table|);
    assert spaces1[a].At(Data) == sp.data && spaces2[a].At(Stack) == sp.stack;
    ClearTableSucceeds(s, s.spaces, a, Code);
    var s1 := ClearFrom(s, sp.code.table, 0).value;
    ClearTableSucceeds(s1, spaces1, a, Data);
    var s2 := ClearFrom(s1, sp.data.table, 0).value;
    ClearTableSucceeds(s2, spaces2, a, Stack);
    DestroyFrom(s, s1, s2, ClearFrom(s2, sp.stack.table, 0).value, a);
  }

  lemma DestroyFrom(s: State, s1: State, s2: State, s3: State, a: SpaceId)
    requires a in s.spaces
    requires ClearFrom(s, s.spaces[a].code.table, 0) == Ok(s1)
    requires ClearFrom(s1, s.spaces[a].data.table, 0) == Ok(s2)
    requires ClearFrom(s2, s.spaces[a].stack.table, 0) == Ok(s3)
    ensures Destroy(s, a).Ok? && Destroy(s, a).value.cm == s3.cm
  {
  }

  // ------------------------------------------------------------------------- runs

  lemma TouchCoremap(s: State, p: Pg, va: nat, env: Env)
    requires IsPage(s.spaces, p) && FirstTouch(s, p, va, env).Ok?
    ensures
      var r := AllocUserPage(s, p.a, PageFrame(va), env.slept);
      && r.Ok? && FirstTouch(s, p, va, env).value.0.cm == r.value.0.cm
      && FirstTouch(s, p, va, env).value.1 == r.value.1
  {
  }

  lemma BackCoremap(s: State, p: Pg, va: nat, env: Env)
    requires IsPage(s.spaces, p) && BringBack(s, p, va, env).Ok?
    ensures
      var r := AllocUserPage(s, p.a, PageFrame(va), env.slept);
      && r.Ok? && BringBack(s, p, va, env).value.0.cm == r.value.0.cm
      && BringBack(s, p, va, env).value.1 == r.value.1
  {
  }

  /** Only the frame allocation of a fault touches the coremap. */
  lemma ResidentCoremap(s: State, p: Pg, va: nat, env: Env)
    requires IsPage(s.spaces, p) && MakeResident(s, p, va, env).Ok?
    ensures
      var cm' := MakeResident(s, p, va, env).value.0.cm;
      if IsResident(WordOf(s.spaces, p)) then cm' == s.cm
      else
        var r := AllocUserPage(s, p.a, PageFrame(va), env.slept);
        r.Ok? && cm' == r.value.0.cm && MakeResident(s, p, va, env).value.1 == r.value.1
  {
    var w := WordOf(s.spaces, p);
    if w == PT_EMPTY {
      TouchCoremap(s, p, va, env);
    } else if IsSwapped(w) {
      BackCoremap(s, p, va, env);
    }
  }

  lemma FaultKeepsFullList(s: State, kind: FaultKind, va: nat, env: Env)
    requires Sound(s) && FullList(s.cm) && !MustReplace(s, kind, va) && Fault(s, kind, va, env).Ok?
    ensures FullList(Fault(s, kind, va, env).value.0.cm)
  {
    if (kind.ReadFault? || kind.WriteFault?) && s.cur.Some? {
      assert SpaceWf(s.spaces[s.cur.value]);
      FaultTarget(s.spaces, s.cur.value, va);
      var target := FaultPage(s.spaces, s.cur.value, va).value;
      if target.Some? {
        var p := target.value;
        FaultUnfolds(s, kind, va, env, p);
        ResidentCoremap(s, p, va, env);
        if !IsResident(WordOf(s.spaces, p)) { EnqueueKeepsFullList(s.cm, p.a, PageFrame(va)); }
      }
    }
  }

  lemma EnqueueKeepsFullList(cm: Cm, a: SpaceId, va: nat)
    requires CmInv(cm) && FullList(cm) && !NeedsVictim(cm, a, va)
    ensures
      var (cm1, f) := TakeUserFrame(cm, a, va);
      Enqueue(cm1, f, a, va).Ok? && FullList(Enqueue(cm1, f, a, va).value)
  {
    var q :| Queue(cm, q) && (q == [] || HeadClean(cm, q));
    EnqueueAppends(cm, q, a, va);
    var (cm1, f) := TakeUserFrame(cm, a, va);
    assert Queue(Enqueue(cm1, f, a, va).value, q + [f]);
  }

  lemma StepKeepsFullList(s: State, e: Event)
    requires Sound(s) && Callable(s, e) && FullList(s.cm) && Vm.Step(s, e).Ok?
    requires e.TakeFault? ==> !MustReplace(s, e.kind, e.va)
    ensures FullList(Vm.Step(s, e).value.0.cm)
  {
    match e
    case TakeFault(kind, va, env) => FaultKeepsFullList(s, kind, va, env);
    case Exit(a) => ExitCannotPanic(s, a);
    case AllocKpages(n) =>
      var q :| Queue(s.cm, q) && (q == [] || HeadClean(s.cm, q));
      KernelAllocKeepsQueue(s.cm, q, n);
    case FreeKpages(f) =>
      var q :| Queue(s.cm, q) && (q == [] || HeadClean(s.cm, q));
      KernelFreeKeepsQueue(s.cm, q, f);
    case _ =>
  }

  /** Until the first replacement of a run the list is fully doubly linked, so no address space exit
      and no fault that finds a frame can panic. */
  lemma {:induction false} FullListUntilReplacement(
    states: seq<State>, events: seq<Event>, codes: seq<Code>, k: nat)
    requires IsKernelRun(states, events, codes) && k <= |events|
    requires forall i {:trigger events[i]} :: 0 <= i < k && events[i].TakeFault? ==>
      !MustReplace(states[i], events[i].kind, events[i].va)
    ensures FullList(states[k].cm)
    decreases k
  {
    if k == 0 {
      BootInv(states[0].cm);
    } else {
      FullListUntilReplacement(states, events, codes, k - 1);
      KernelRunSound(states, events, codes, k - 1);
      StepKeepsFullList(states[k - 1], events[k - 1]);
      assert Vm.Step(states[k - 1], events[k - 1]) == Ok((states[k], codes[k - 1]));
    }
  }

  lemma FullListLast(cm: Cm)
    requires FullList(cm)
    ensures LastOk(cm)
  {
    var q :| Queue(cm, q) && (q == [] || HeadClean(cm, q));
  }

  /** What the hardware and the callers of the kernel see to: a store goes through a TLB entry for a
      frame of memory, an exit names a live space, a kernel write a frame. */
  ghost predicate Proper(s: State, e: Event) {
    && Callable(s, e)
    && match e
       case Store(va, b) => Translate(s, va).Some? && Translate(s, va).value.frame < |s.ram|
       case Exit(a) => a in s.spaces
       case KernelWrite(f, page) => f < |s.ram|
       case _ => true
  }

  /** Before any replacement, the only event of a run that can panic is a fault that must replace a
      page. */
  lemma NoPanicBeforeReplacement(states: seq<State>, events: seq<Event>, codes: seq<Code>, e: Event)
    requires IsKernelRun(states, events, codes) && Proper(states[|events|], e)
    requires forall i {:trigger events[i]} :: 0 <= i < |events| && events[i].TakeFault? ==>
      !MustReplace(states[i], events[i].kind, events[i].va)
    requires e.TakeFault? ==> !MustReplace(states[|events|], e.kind, e.va)
    ensures Vm.Step(states[|events|], e).Ok?
  {
    var s := states[|events|];
    KernelRunSound(states, events, codes, |events|);
    FullListUntilReplacement(states, events, codes, |events|);
    match e
    case TakeFault(kind, va, env) =>
      FullListLast(s.cm);
      FaultPanicsIff(s, kind, va, env);
    case Exit(a) => ExitCannotPanic(s, a);
    case AllocKpages(n) => AllocKpagesStep(s, n);
    case FreeKpages(f) => FreeKpagesStep(s, f);
    case _ =>
  }
}
