/** The flat memory beside what the program stored, byte by byte: they part where a failed load leaves
    something else than the image, and meet again at the next store. */
module VmBytes {
  import opened Common
  import opened Coremap
  import opened PageTable
  import opened Segment
  import opened AddrSpace
  import opened Tlb
  import opened Vm
  import opened VmOwn
  import opened VmView
  import opened VmFault
  import opened VmCoherence
  import opened VmDestroy
  import opened VmSteps
  import opened VmAccess
  import opened VmRun
  import opened VmEmpty

  /** The page after the step if only creation and stores count. */
  ghost function Written(s: State, e: Event, p: Pg, before: Page): Page {
    if e.Create? && p.a == e.a then PageImage(NewSpace(e.code, e.data).At(p.sel), p.index)
    else if StoresTo(s, e, p) then before[e.va % PAGE_SIZE := e.b]
    else before
  }

  /** The last bytes stored to page `p` in the first `k` events, over its image. */
  ghost function Stored(states: seq<State>, events: seq<Event>, k: nat, p: Pg): Page
    requires k <= |events| < |states|
    decreases k
  {
    if k == 0 then ZeroPage() else Written(states[k - 1], events[k - 1], p, Stored(states, events, k - 1, p))
  }

  /** Byte `i` of page `p` is one that a failed load left different from the image, not stored to since. */
  ghost predicate Spoiled(states: seq<State>, events: seq<Event>, codes: seq<Code>, k: nat, p: Pg, i: nat)
    requires k <= |events| < |states| && |codes| == |events| && i < PAGE_SIZE
    decreases k
  {
    if k == 0 then false
    else
      var s, e := states[k - 1], events[k - 1];
      if e.Create? && p.a == e.a then false
      else if StoresTo(s, e, p) && e.va % PAGE_SIZE == i then false
      else if FailedLoad(s, e, codes[k - 1], p) && p.a in s.spaces then
        LoadedPage(SegOf(s.spaces, p), p.index, e.env.read)[i] != PageImage(SegOf(s.spaces, p), p.index)[i]
      else Spoiled(states, events, codes, k - 1, p, i)
  }

  /** The step from the flat memory to what was stored. */
  lemma NextIsWritten(s: State, e: Event, code: Code, p: Pg, before: Page)
    ensures !(FailedLoad(s, e, code, p) && p.a in s.spaces) ==> Next(s, e, code, p, before) == Written(s, e, p, before)
    ensures FailedLoad(s, e, code, p) && p.a in s.spaces ==>
      && Next(s, e, code, p, before) == LoadedPage(SegOf(s.spaces, p), p.index, e.env.read)
      && Written(s, e, p, before) == before
  {
  }

  /** But for a failed load, an event changes a byte of the page on both sides or on neither. */
  lemma ByteNext(s: State, e: Event, code: Code, p: Pg, flat: Page, stored: Page, i: nat)
    requires !FailedLoad(s, e, code, p) && !(e.Create? && p.a == e.a) && i < PAGE_SIZE
    ensures StoresTo(s, e, p) && e.va % PAGE_SIZE == i ==>
      Next(s, e, code, p, flat)[i] == Written(s, e, p, stored)[i]
    ensures !(StoresTo(s, e, p) && e.va % PAGE_SIZE == i) ==>
      Next(s, e, code, p, flat)[i] == flat[i] && Written(s, e, p, stored)[i] == stored[i]
  {
    NextIsWritten(s, e, code, p, flat);
  }

  /** A failed load leaves a byte as it was stored exactly when what arrived is the image's byte. */
  lemma ByteFailed(s: State, e: Event, code: Code, p: Pg, flat: Page, i: nat)
    requires FailedLoad(s, e, code, p) && p.a in s.spaces && i < PAGE_SIZE
    ensures !StoresTo(s, e, p)
    ensures
      var image := PageImage(SegOf(s.spaces, p), p.index);
      Next(s, e, code, p, flat)[i] == Written(s, e, p, image)[i] <==>
        LoadedPage(SegOf(s.spaces, p), p.index, e.env.read)[i] == image[i]
  {
    NextIsWritten(s, e, code, p, flat);
  }

  /** Where page `p` failed to load, what was stored to it up to then is its image. */
  ghost predicate LoadedFirst(states: seq<State>, events: seq<Event>, codes: seq<Code>, j: nat, p: Pg)
    requires j < |events| < |states| && |codes| == |events|
  {
    FailedLoad(states[j], events[j], codes[j], p) ==>
      p.a in states[j].spaces && Stored(states, events, j, p) == PageImage(SegOf(states[j].spaces, p), p.index)
  }

  lemma {:induction false} FlatIff(states: seq<State>, events: seq<Event>, codes: seq<Code>, k: nat, p: Pg, i: nat)
    requires k <= |events| < |states| && |codes| == |events| && i < PAGE_SIZE
    requires forall j: nat :: j < k ==> LoadedFirst(states, events, codes, j, p)
    ensures Flat(states, events, codes, k, p)[i] == Stored(states, events, k, p)[i] <==>
      !Spoiled(states, events, codes, k, p, i)
    decreases k
  {
    if k > 0 {
      var s, e, code := states[k - 1], events[k - 1], codes[k - 1];
      if !(e.Create? && p.a == e.a) {
        if FailedLoad(s, e, code, p) {
          assert LoadedFirst(states, events, codes, k - 1, p);
          ByteFailed(s, e, code, p, Flat(states, events, codes, k - 1, p), i);
        } else {
          ByteNext(s, e, code, p, Flat(states, events, codes, k - 1, p), Stored(states, events, k - 1, p), i);
          FlatIff(states, events, codes, k - 1, p, i);
        }
      }
    }
  }

  /** Without a failed load of the page, nothing is spoiled. */
  lemma {:induction false} NothingSpoiled(states: seq<State>, events: seq<Event>, codes: seq<Code>, k: nat, p: Pg,
                                          i: nat)
    requires k <= |events| < |states| && |codes| == |events| && i < PAGE_SIZE
    requires forall j {:trigger events[j]} :: 0 <= j < k ==> !FailedLoad(states[j], events[j], codes[j], p)
    ensures !Spoiled(states, events, codes, k, p, i)
    decreases k
  {
    if k > 0 {
      assert !FailedLoad(states[k - 1], events[k - 1], codes[k - 1], p);
      NothingSpoiled(states, events, codes, k - 1, p, i);
    }
  }
}
