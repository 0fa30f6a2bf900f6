/** What a program expects of its memory: a byte is the last one stored, else the one of the segment's
    image. A load from the executable that fails part way breaks this for the bytes that did not
    arrive, because the page stays entered in the page table; nothing else breaks it. */
module VmStored {
  import opened Common
  import opened Coremap
  import opened PageTable
  import opened Segment
  import opened AddrSpace
  import opened Tlb
  import opened Vm
  import opened VmOwn
  import opened VmView
  import opened VmFault
  import opened VmCoherence
  import opened VmDestroy
  import opened VmSteps
  import opened VmAccess
  import opened VmRun
  import opened VmEmpty
  import opened VmBytes

  /** While a page is untouched, what was stored to it is its image. */
  lemma {:induction false} EmptyIsImage(states: seq<State>, events: seq<Event>, codes: seq<Code>, k: nat, p: Pg)
    requires IsFlatRun(states, events, codes) && k <= |events|
    requires IsPage(states[k].spaces, p) && WordOf(states[k].spaces, p) == PT_EMPTY
    ensures Stored(states, events, k, p) == Flat(states, events, codes, k, p)
    decreases k
  {
    if k > 0 {
      var s, e := states[k - 1], events[k - 1];
      KernelRunSound(states, events, codes, k - 1);
      if !(e.Create? && p.a == e.a) {
        StillEmpty(s, e, p);
        EmptyIsImage(states, events, codes, k - 1, p);
      }
    }
  }

  /** Up to a failed load of a page, what was stored to it is its image. */
  lemma BeforeFailedLoad(states: seq<State>, events: seq<Event>, codes: seq<Code>, k: nat, p: Pg)
    requires IsFlatRun(states, events, codes) && k < |events| && FailedLoad(states[k], events[k], codes[k], p)
    ensures p.a in states[k].spaces
    ensures Stored(states, events, k, p) == PageImage(SegOf(states[k].spaces, p), p.index)
  {
    KernelRunSound(states, events, codes, k);
    FailedLoadIsFirst(states[k], events[k], p);
    EmptyIsImage(states, events, codes, k, p);
    PagingIsInvisible(states, events, codes, k, p);
  }

  /** In every reachable state a byte of a page is the last one stored, else the image's, exactly when no
      failed load has spoiled it. */
  lemma StoredIff(states: seq<State>, events: seq<Event>, codes: seq<Code>, k: nat, p: Pg, i: nat)
    requires IsFlatRun(states, events, codes) && k <= |events| && IsPage(states[k].spaces, p) && i < PAGE_SIZE
    ensures View(states[k], p)[i] == Stored(states, events, k, p)[i] <==> !Spoiled(states, events, codes, k, p, i)
  {
    PagingIsInvisible(states, events, codes, k, p);
    forall j: nat | j < k
      ensures LoadedFirst(states, events, codes, j, p)
    {
      if FailedLoad(states[j], events[j], codes[j], p) { BeforeFailedLoad(states, events, codes, j, p); }
    }
    FlatIff(states, events, codes, k, p, i);
  }

  /** A user load that lands on a page returns the last byte stored at its address, else the image's byte,
      exactly when no failed load has spoiled that byte. */
  lemma LoadReturnsStoredIff(states: seq<State>, events: seq<Event>, codes: seq<Code>, k: nat, va: nat, p: Pg)
    requires IsFlatRun(states, events, codes) && k <= |events|
    requires Lands(states[k], va) && Target(states[k], va) == Some(p)
    ensures LoadedByte(states[k], va) == Stored(states, events, k, p)[va % PAGE_SIZE] <==>
      !Spoiled(states, events, codes, k, p, va % PAGE_SIZE)
  {
    KernelRunSound(states, events, codes, k);
    LandedLoad(states[k], va, p);
    StoredIff(states, events, codes, k, p, va % PAGE_SIZE);
  }
}
