/** Whole runs: paging is invisible. Over every run that does not end in a panic and in which stores land,
    every page shows what a flat memory would hold. */
module VmRun {
  import opened Common
  import opened Coremap
  import opened CoremapBlocks
  import opened CoremapQueue
  import opened PageTable
  import opened Segment
  import opened AddrSpace
  import opened Tlb
  import opened Vm
  import opened VmOwn
  import opened VmView
  import opened VmFault
  import opened VmCoherence
  import opened VmDestroy
  import opened VmSteps
  import opened VmAccess

  // ----------------------------------------------------------------------- runs

  /** The state `vm_bootstrap` leaves: no address space, nothing swapped, an empty TLB. */
  ghost predicate BootState(s: State) {
    && Boot(s.cm)
    && |s.ram| == |s.cm.entries| && |s.swap| == SWAP_SLOTS
    && s.slots == {} && s.spaces == map[] && s.cur == None
    && TlbWf(s.tlb) && (forall i :: 0 <= i < NUM_TLB ==> s.tlb.slots[i] == TlbEntry.Invalid)
    && s.stats == Stats(0, 0, 0, 0, 0, 0, 0, 0, 0, 0) && s.swapFrees == 0 && s.failedLoads == 0
  }

  ghost predicate Stepped(s: State, e: Event, s': State, code: Code) {
    Callable(s, e) && Vm.Step(s, e) == Ok((s', code))
  }

  /** A run with no panic: event `i` takes state `i` to state `i + 1` with result `codes[i]`. The TLB may
      hold anything. */
  ghost predicate IsKernelRun(states: seq<State>, events: seq<Event>, codes: seq<Code>) {
    && |states| == |events| + 1 && |codes| == |events|
    && BootState(states[0])
    && forall i {:trigger events[i]} :: 0 <= i < |events| ==>
      Stepped(states[i], events[i], states[i + 1], codes[i])
  }

  /** A run in which the hardware translates through the TLB and no fault leaves a stale entry. */
  ghost predicate IsVmRun(states: seq<State>, events: seq<Event>, codes: seq<Code>) {
    && IsKernelRun(states, events, codes)
    && forall i {:trigger events[i]} :: 0 <= i < |events| ==> Enabled(states[i], events[i])
  }

  /** A run in which every store lands on the page that holds its address, and the kernel writes no page's
      frame. Faults may leave stale entries in the TLB. */
  ghost predicate IsFlatRun(states: seq<State>, events: seq<Event>, codes: seq<Code>) {
    && IsKernelRun(states, events, codes)
    && forall i {:trigger events[i]} :: 0 <= i < |events| ==> Tidy(states[i], events[i])
  }

  lemma BootStateInv(s: State)
    requires BootState(s)
    ensures Inv(s)
  {
    BootInv(s.cm);
  }

  /** Sizes, ownership and a live running space in every state of every run. */
  lemma {:induction false} KernelRunSound(states: seq<State>, events: seq<Event>, codes: seq<Code>, k: nat)
    requires IsKernelRun(states, events, codes) && k <= |events|
    ensures Sound(states[k])
    decreases k
  {
    if k == 0 {
      BootStateInv(states[0]);
    } else {
      KernelRunSound(states, events, codes, k - 1);
      SoundStep(states[k - 1], events[k - 1]);
    }
  }

  /** In runs without stale entries the TLB agrees with the page tables in every state. */
  lemma {:induction false} RunInv(states: seq<State>, events: seq<Event>, codes: seq<Code>, k: nat)
    requires IsVmRun(states, events, codes) && k <= |events|
    ensures Inv(states[k])
    decreases k
  {
    KernelRunSound(states, events, codes, k);
    if k == 0 {
      BootStateInv(states[0]);
    } else {
      RunInv(states, events, codes, k - 1);
      CoherentStep(states[k - 1], events[k - 1]);
    }
  }

  /** The flat memory of a run: the contents of page `p` after `k` events. Of the states it uses only
      the layout of the address spaces and which one is running, to tell which page a store hits. A
      page starts as its image when its space is created, a store changes one byte, a load from the
      executable that fails leaves what had arrived; nothing else changes it. */
  ghost function Flat(states: seq<State>, events: seq<Event>, codes: seq<Code>, k: nat, p: Pg): Page
    requires k <= |events| < |states| && |codes| == |events|
    decreases k
  {
    if k == 0 then ZeroPage()
    else Next(states[k - 1], events[k - 1], codes[k - 1], p, Flat(states, events, codes, k - 1, p))
  }

  /** A run without stale entries is one in which every access lands on a page. */
  lemma VmRunIsFlat(states: seq<State>, events: seq<Event>, codes: seq<Code>)
    requires IsVmRun(states, events, codes)
    ensures IsFlatRun(states, events, codes)
    ensures forall i {:trigger events[i]} :: 0 <= i < |events| && events[i].Load? ==>
      Lands(states[i], events[i].va) && Target(states[i], events[i].va).Some?
  {
    forall i | 0 <= i < |events|
      ensures Tidy(states[i], events[i])
      ensures events[i].Load? ==> Lands(states[i], events[i].va) && Target(states[i], events[i].va).Some?
    {
      RunInv(states, events, codes, i);
      EnabledIsTidy(states[i], events[i]);
      if events[i].Load? { CoherentLands(states[i], events[i].va); }
    }
  }

  lemma PageShown(states: seq<State>, events: seq<Event>, codes: seq<Code>, k: nat, p: Pg)
    requires IsFlatRun(states, events, codes) && k < |events| && IsPage(states[k + 1].spaces, p)
    ensures PageFollows(states[k], events[k], codes[k], states[k + 1], p)
  {
    KernelRunSound(states, events, codes, k);
    TidyStep(states[k], events[k]);
  }

  /** Paging is invisible: wherever a page is kept, it shows what the flat memory holds. */
  lemma {:induction false} PagingIsInvisible(
    states: seq<State>, events: seq<Event>, codes: seq<Code>, k: nat, p: Pg)
    requires IsFlatRun(states, events, codes) && k <= |events| && IsPage(states[k].spaces, p)
    ensures View(states[k], p) == Flat(states, events, codes, k, p)
    decreases k
  {
    if k > 0 {
      PageShown(states, events, codes, k - 1, p);
      var e := events[k - 1];
      if !(e.Create? && p.a == e.a) {
        PagingIsInvisible(states, events, codes, k - 1, p);
      }
    }
  }

  /** A user load that lands on a page returns the flat memory's byte at its address. */
  lemma LoadsReturnFlatMemory(states: seq<State>, events: seq<Event>, codes: seq<Code>, k: nat, va: nat, p: Pg)
    requires IsFlatRun(states, events, codes) && k <= |events|
    requires Lands(states[k], va) && Target(states[k], va) == Some(p)
    ensures LoadedByte(states[k], va) == Flat(states, events, codes, k, p)[va % PAGE_SIZE]
  {
    KernelRunSound(states, events, codes, k);
    LandedLoad(states[k], va, p);
    PagingIsInvisible(states, events, codes, k, p);
  }

  /** In a run without stale entries that is every user load. */
  lemma EveryLoadIsFlat(states: seq<State>, events: seq<Event>, codes: seq<Code>, k: nat)
    requires IsVmRun(states, events, codes) && k < |events| && events[k].Load?
    ensures
      var (s, va) := (states[k], events[k].va);
      && Lands(s, va) && Target(s, va).Some?
      && LoadedByte(s, va) == Flat(states, events, codes, k, Target(s, va).value)[va % PAGE_SIZE]
  {
    VmRunIsFlat(states, events, codes);
    assert events[k].Load?;
    LoadsReturnFlatMemory(states, events, codes, k, events[k].va, Target(states[k], events[k].va).value);
  }

  /** Ownership over every run, whatever the TLB holds: a frame is a user frame exactly when one page's
      word holds it, and the record names that page; a swap slot is marked exactly when one page's
      word carries its offset. */
  lemma OwnershipOverRuns(states: seq<State>, events: seq<Event>, codes: seq<Code>, k: nat, f: nat, t: nat)
    requires IsKernelRun(states, events, codes) && k <= |events|
    requires 0 < f < |states[k].cm.entries|
    ensures
      var s := states[k];
      && (UserFrame(s.cm.entries, f) <==> exists p :: Holds(s.spaces, p, FrameWord(f)))
      && (forall p :: Holds(s.spaces, p, FrameWord(f)) ==>
            s.cm.entries[f].space == Some(p.a) && s.cm.entries[f].vaddr == AddrOf(s.spaces, p))
      && (forall p, q :: Holds(s.spaces, p, FrameWord(f)) && Holds(s.spaces, q, FrameWord(f)) ==> p == q)
      && (InUse(s.slots, t) <==> exists p :: Holds(s.spaces, p, SlotWord(t)))
      && (forall p, q :: Holds(s.spaces, p, SlotWord(t)) && Holds(s.spaces, q, SlotWord(t)) ==> p == q)
  {
    KernelRunSound(states, events, codes, k);
    var s := states[k];
    FrameOwnership(s.spaces, s.cm.entries, s.slots, f);
    SlotOwnership(s.spaces, s.cm.entries, s.slots, t);
  }

  /** Over every run, an address space that has ended, or was never created, owns no frame and no
      slot: what is owned is owned by a live one. */
  lemma OnlyLiveOwn(states: seq<State>, events: seq<Event>, codes: seq<Code>, k: nat, f: nat, t: nat)
    requires IsKernelRun(states, events, codes) && k <= |events|
    ensures
      var s := states[k];
      && (UserFrame(s.cm.entries, f) ==> s.cm.entries[f].space.Some? && s.cm.entries[f].space.value in s.spaces)
      && (InUse(s.slots, t) ==> exists p :: Holds(s.spaces, p, SlotWord(t)) && p.a in s.spaces)
      && (k > 0 && events[k - 1].Exit? ==> events[k - 1].a !in s.spaces)
  {
    KernelRunSound(states, events, codes, k);
    var s := states[k];
    if UserFrame(s.cm.entries, f) { FrameOwnership(s.spaces, s.cm.entries, s.slots, f); }
    if k > 0 && events[k - 1].Exit? {
      KernelRunSound(states, events, codes, k - 1);
      DestroyKeeps(states[k - 1], events[k - 1].a);
    }
  }
}
