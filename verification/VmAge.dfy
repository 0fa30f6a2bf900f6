/** Over whole runs the FIFO list holds the user frames in the order in which their pages became resident, so
    that the page a fault throws out is the one resident longest. */
module VmAge {
  import opened Common
  import opened Coremap
  import opened CoremapBlocks
  import opened CoremapQueue
  import opened PageTable
  import opened Segment
  import opened AddrSpace
  import opened Tlb
  import opened Vm
  import opened VmOwn
  import opened VmView
  import opened VmFault
  import opened VmCoherence
  import opened VmDestroy
  import opened VmSteps
  import opened VmRun
  import opened VmTotal
  import opened VmQueue

  /** The frame has the same page in both coremaps. */
  predicate SamePage(es: seq<Entry>, es': seq<Entry>, f: nat) {
    && UserFrame(es, f) && UserFrame(es', f)
    && es[f].space == es'[f].space && es[f].vaddr == es'[f].vaddr
  }

  /** The number of events after which frame `f` has had its page without interruption. */
  function Since(states: seq<State>, k: nat, f: nat): (j: nat)
    requires k < |states|
    ensures j <= k
  {
    if k == 0 then 0
    else if SamePage(states[k - 1].cm.entries, states[k].cm.entries, f) then Since(states, k - 1, f)
    else k
  }

  ghost function Ages(states: seq<State>, k: nat): seq<nat>
    requires k < |states|
  {
    seq(|states[k].cm.entries|, f requires f >= 0 => Since(states, k, f))
  }

  // -------------------------------------------------------------------------- one event

  lemma SameHolder(s: State, s': State, p: Pg, f: nat)
    requires Sound(s) && Sound(s') && f > 0 && Holds(s.spaces, p, FrameWord(f)) && Holds(s'.spaces, p, FrameWord(f))
    requires AddrOf(s.spaces, p) == AddrOf(s'.spaces, p)
    ensures SamePage(s.cm.entries, s'.cm.entries, f)
  {
    FrameInRam(s, p, f);
    FrameInRam(s', p, f);
    FrameOwnership(s.spaces, s.cm.entries, s.slots, f);
    FrameOwnership(s'.spaces, s'.cm.entries, s'.slots, f);
  }

  /** The page was in the frame before. */
  ghost predicate WasThere(s: State, s': State, p: Pg, f: nat) {
    Holds(s'.spaces, p, FrameWord(f)) ==>
      Holds(s.spaces, p, FrameWord(f)) && AddrOf(s.spaces, p) == AddrOf(s'.spaces, p)
  }

  lemma StillSame(s: State, s': State, f: nat)
    requires Sound(s) && Sound(s') && UserFrame(s'.cm.entries, f) && forall p :: WasThere(s, s', p, f)
    ensures SamePage(s.cm.entries, s'.cm.entries, f)
  {
    assert f > 0;
    FrameOwnership(s'.spaces, s'.cm.entries, s'.slots, f);
    var p :| Holds(s'.spaces, p, FrameWord(f));
    assert WasThere(s, s', p, f);
    SameHolder(s, s', p, f);
  }

  /** Ages after an event, the frames that got a page in it being the youngest. */
  ghost function Aged(es: seq<Entry>, es': seq<Entry>, age: seq<nat>, now: nat): seq<nat>
    requires |age| == |es|
  {
    seq(|es'|, f requires 0 <= f < |es'| => if SamePage(es, es', f) then age[f] else now)
  }

  lemma OrderedAged(es: seq<Entry>, es': seq<Entry>, q: seq<nat>, age: seq<nat>, now: nat)
    requires |age| == |es| && Ordered(q, age) && forall i :: 0 <= i < |q| ==> SamePage(es, es', q[i])
    ensures Ordered(q, Aged(es, es', age, now))
  {
    forall i, j | 0 <= i < j < |q|
      ensures Older(Aged(es, es', age, now), q[i], q[j])
    {
      assert Older(age, q[i], q[j]);
    }
  }

  lemma OrderedAdded(es: seq<Entry>, es': seq<Entry>, rest: seq<nat>, f: nat, age: seq<nat>, now: nat)
    requires |age| == |es| && Ordered(rest, age) && forall i :: 0 <= i < |rest| ==> SamePage(es, es', rest[i])
    requires f < |es'| && !SamePage(es, es', f) && forall g :: 0 <= g < |age| ==> age[g] < now
    ensures Ordered(rest + [f], Aged(es, es', age, now))
  {
    var q, aged := rest + [f], Aged(es, es', age, now);
    OrderedAged(es, es', rest, age, now);
    forall i, j | 0 <= i < j < |q|
      ensures Older(aged, q[i], q[j])
    {
      if j < |rest| { assert Older(aged, rest[i], rest[j]); }
    }
  }

  /** The list keeps its order if all its frames keep their pages. */
  lemma KeptOrder(s: State, s': State, q: seq<nat>, age: seq<nat>, now: nat)
    requires Sound(s) && Sound(s') && |age| == |s.cm.entries| && Ordered(q, age) && Queue(s'.cm, q)
    requires forall f: nat, p :: f in q ==> WasThere(s, s', p, f)
    ensures Ordered(q, Aged(s.cm.entries, s'.cm.entries, age, now))
  {
    forall i | 0 <= i < |q|
      ensures SamePage(s.cm.entries, s'.cm.entries, q[i])
    {
      assert q[i] in q;
      StillSame(s, s', q[i]);
    }
    OrderedAged(s.cm.entries, s'.cm.entries, q, age, now);
  }

  /** It also does if one frame with a new page is put at its end. */
  lemma AddedOrder(s: State, s': State, rest: seq<nat>, f: nat, age: seq<nat>, now: nat)
    requires Sound(s) && Sound(s') && |age| == |s.cm.entries| && Ordered(rest, age) && Queue(s'.cm, rest + [f])
    requires forall g :: 0 <= g < |age| ==> age[g] < now
    requires forall g: nat, p :: g in rest ==> WasThere(s, s', p, g)
    requires !SamePage(s.cm.entries, s'.cm.entries, f)
    ensures Ordered(rest + [f], Aged(s.cm.entries, s'.cm.entries, age, now))
  {
    var q := rest + [f];
    assert q[|rest|] == f;
    forall i | 0 <= i < |rest|
      ensures SamePage(s.cm.entries, s'.cm.entries, rest[i])
    {
      assert q[i] in q && q[i] == rest[i] && rest[i] in rest;
      StillSame(s, s', rest[i]);
    }
    OrderedAdded(s.cm.entries, s'.cm.entries, rest, f, age, now);
  }

  /** The frame a page is put in had another page, or none. */
  lemma NewHolder(s: State, s1: State, p: Pg, f: nat)
    requires Sound(s) && Sound(s1) && SameLayout(s.spaces, s1.spaces) && f > 0
    requires IsPage(s.spaces, p) && !IsResident(WordOf(s.spaces, p)) && Holds(s1.spaces, p, FrameWord(f))
    ensures !SamePage(s.cm.entries, s1.cm.entries, f)
  {
    FrameInRam(s1, p, f);
    FrameOwnership(s1.spaces, s1.cm.entries, s1.slots, f);
    LayoutPages(s.spaces, s1.spaces, p);
    if SamePage(s.cm.entries, s1.cm.entries, f) {
      FrameOwnership(s.spaces, s.cm.entries, s.slots, f);
      var h :| Holds(s.spaces, h, FrameWord(f));
      assert SpaceWf(s.spaces[p.a]);
      PageAddrInjective(s.spaces[p.a], p.sel, p.index, h.sel, h.index);
      TagsAreExact(f, 0);
    }
  }

  /** The other pages in memory after a page was made resident were there before. */
  lemma OthersWere(s: State, s1: State, p: Pg, f: nat, g: nat)
    requires SameLayout(s.spaces, s1.spaces) && IsPage(s.spaces, p) && Holds(s1.spaces, p, FrameWord(f))
    requires forall h :: IsPage(s.spaces, h) && h != p ==> SeenAlike(s, s1, f, h)
    requires g > 0 && g != f
    ensures forall h :: WasThere(s, s1, h, g)
  {
    TagsAreExact(g, 0);
    forall h
      ensures WasThere(s, s1, h, g)
    {
      if Holds(s1.spaces, h, FrameWord(g)) {
        LayoutPages(s.spaces, s1.spaces, h);
        if h != p { assert SeenAlike(s, s1, f, h); }
      }
    }
  }

  lemma NotLast(cm: Cm, rest: seq<nat>, f: nat, g: nat)
    requires CmInv(cm) && Queue(cm, rest + [f]) && g in rest
    ensures g > 0 && g != f
  {
    var i :| 0 <= i < |rest| && rest[i] == g;
    var q := rest + [f];
    assert q[i] == g && q[|rest|] == f && g in q;
  }

  /** The list after page `p` was put in frame `f`. */
  lemma PlacedOrder(s: State, s1: State, p: Pg, f: nat, page: Page, rest: seq<nat>, age: seq<nat>, now: nat)
    requires Sound(s) && Sound(s1) && MadeResident(s, s1, p, f, page)
    requires IsPage(s.spaces, p) && !IsResident(WordOf(s.spaces, p))
    requires Queue(s1.cm, rest + [f]) && |age| == |s.cm.entries| && Ordered(rest, age)
    requires forall g :: 0 <= g < |age| ==> age[g] < now
    ensures Ordered(rest + [f], Aged(s.cm.entries, s1.cm.entries, age, now))
  {
    NewHolder(s, s1, p, f);
    forall g: nat, h | g in rest
      ensures WasThere(s, s1, h, g)
    {
      NotLast(s1.cm, rest, f, g);
      OthersWere(s, s1, p, f, g);
    }
    AddedOrder(s, s1, rest, f, age, now);
  }

  /** A page outside memory is made resident. */
  lemma AbsentOrder(s: State, p: Pg, va: nat, env: Env, q: seq<nat>, age: seq<nat>, now: nat) returns (q': seq<nat>)
    requires Sound(s) && IsPage(s.spaces, p) && !IsResident(WordOf(s.spaces, p))
    requires AddrOf(s.spaces, p) == PageFrame(va) && MakeResident(s, p, va, env).Ok?
    requires Queue(s.cm, q) && |age| == |s.cm.entries| && Ordered(q, age)
    requires forall g :: 0 <= g < |age| ==> age[g] < now
    ensures
      var s1 := MakeResident(s, p, va, env).value.0;
      Queue(s1.cm, q') && Ordered(q', Aged(s.cm.entries, s1.cm.entries, age, now))
  {
    var (s1, f, ok) := MakeResident(s, p, va, env).value;
    MakeResidentKeeps(s, p, va, env);
    ResidentCoremap(s, p, va, env);
    var rest := AllocList(s, p.a, PageFrame(va), env.slept, q);
    q' := rest + [f];
    if rest != q { OrderedTail(q, age); }
    PlacedOrder(s, s1, p, f, FirstContents(s, p, env, ok), rest, age, now);
  }

  /** The page a fault brings into memory, if it brings one. */
  ghost function Arriving(s: State, kind: FaultKind, va: nat): Option<Pg> {
    if (kind.ReadFault? || kind.WriteFault?) && s.cur.Some? && s.cur.value in s.spaces then
      match FaultPage(s.spaces, s.cur.value, va)
      case Ok(Some(p)) => if IsPage(s.spaces, p) && !IsResident(WordOf(s.spaces, p)) then Some(p) else None
      case _ => None
    else None
  }

  lemma NoneArriving(s: State, kind: FaultKind, va: nat, env: Env)
    requires Sound(s) && Fault(s, kind, va, env).Ok? && Arriving(s, kind, va).None?
    ensures var s' := Fault(s, kind, va, env).value.0; s'.spaces == s.spaces && s'.cm == s.cm
  {
    if (kind.ReadFault? || kind.WriteFault?) && s.cur.Some? {
      assert SpaceWf(s.spaces[s.cur.value]);
      FaultTarget(s.spaces, s.cur.value, va);
      var target := FaultPage(s.spaces, s.cur.value, va).value;
      if target.Some? { FaultUnfolds(s, kind, va, env, target.value); }
    }
  }

  lemma OneArriving(s: State, kind: FaultKind, va: nat, env: Env, p: Pg)
    requires Sound(s) && Fault(s, kind, va, env).Ok? && Arriving(s, kind, va) == Some(p)
    ensures IsPage(s.spaces, p) && AddrOf(s.spaces, p) == PageFrame(va) && MakeResident(s, p, va, env).Ok?
    ensures
      var s1 := MakeResident(s, p, va, env).value.0;
      var s' := Fault(s, kind, va, env).value.0;
      s'.cm == s1.cm && s'.spaces == s1.spaces
  {
    assert SpaceWf(s.spaces[s.cur.value]);
    FaultTarget(s.spaces, s.cur.value, va);
    FaultUnfolds(s, kind, va, env, p);
  }

  lemma FaultOrder(s: State, kind: FaultKind, va: nat, env: Env, q: seq<nat>, age: seq<nat>, now: nat)
    returns (q': seq<nat>)
    requires Sound(s) && Fault(s, kind, va, env).Ok? && Queue(s.cm, q) && |age| == |s.cm.entries| && Ordered(q, age)
    requires forall g :: 0 <= g < |age| ==> age[g] < now
    ensures
      var s' := Fault(s, kind, va, env).value.0;
      Queue(s'.cm, q') && Ordered(q', Aged(s.cm.entries, s'.cm.entries, age, now))
  {
    match Arriving(s, kind, va)
    case None =>
      NoneArriving(s, kind, va, env);
      q' := q;
      SameCoremap(s.cm, q, age, now);
    case Some(p) =>
      OneArriving(s, kind, va, env, p);
      q' := AbsentOrder(s, p, va, env, q, age, now);
  }

  /** The list keeps its order if no page table changes. */
  lemma SameSpaces(s: State, s': State, q: seq<nat>, age: seq<nat>, now: nat)
    requires Sound(s) && Sound(s') && s'.spaces == s.spaces && |age| == |s.cm.entries|
    requires Ordered(q, age) && Queue(s'.cm, q)
    ensures Ordered(q, Aged(s.cm.entries, s'.cm.entries, age, now))
  {
    KeptOrder(s, s', q, age, now);
  }

  lemma SameCoremap(cm: Cm, q: seq<nat>, age: seq<nat>, now: nat)
    requires Queue(cm, q) && |age| == |cm.entries| && Ordered(q, age)
    ensures Ordered(q, Aged(cm.entries, cm.entries, age, now))
  {
    forall i | 0 <= i < |q|
      ensures UserFrame(cm.entries, q[i])
    {
      assert q[i] in q;
    }
    OrderedAged(cm.entries, cm.entries, q, age, now);
  }

  lemma ExitOrder(s: State, a: SpaceId, q: seq<nat>, age: seq<nat>, now: nat) returns (q': seq<nat>)
    requires Sound(s) && a in s.spaces && Destroy(s, a).Ok? && !ExitBreaks(s.cm, a)
    requires Queue(s.cm, q) && |age| == |s.cm.entries| && Ordered(q, age)
    ensures
      var s' := Destroy(s, a).value;
      Queue(s'.cm, q') && Ordered(q', Aged(s.cm.entries, s'.cm.entries, age, now))
  {
    q' := ExitList(s, a, q, age);
    DestroyKeeps(s, a);
    var s' := Destroy(s, a).value;
    forall f: nat, p | f in q'
      ensures WasThere(s, s', p, f)
    {
      if IsPage(s'.spaces, p) { assert Intact(s, s', p); }
    }
    KeptOrder(s, s', q', age, now);
  }

  /** Every event but an exit that breaks the list keeps it in order of age. */
  lemma StepOrder(s: State, e: Event, q: seq<nat>, age: seq<nat>, now: nat) returns (q': seq<nat>)
    requires Sound(s) && Callable(s, e) && Vm.Step(s, e).Ok? && (e.Exit? ==> !ExitBreaks(s.cm, e.a))
    requires Queue(s.cm, q) && |age| == |s.cm.entries| && Ordered(q, age)
    requires forall g :: 0 <= g < |age| ==> age[g] < now
    ensures
      var s' := Vm.Step(s, e).value.0;
      Queue(s'.cm, q') && Ordered(q', Aged(s.cm.entries, s'.cm.entries, age, now))
  {
    q' := q;
    if e.TakeFault? {
      q' := FaultOrder(s, e.kind, e.va, e.env, q, age, now);
    } else if e.Exit? {
      q' := ExitOrder(s, e.a, q, age, now);
    } else if e.Create? {
      SameCoremap(s.cm, q, age, now);
    } else {
      SoundStep(s, e);
      OtherStep(s, e, q);
      SameSpaces(s, Vm.Step(s, e).value.0, q, age, now);
    }
  }

  lemma OtherStep(s: State, e: Event, q: seq<nat>)
    requires Sound(s) && Callable(s, e) && Vm.Step(s, e).Ok? && Queue(s.cm, q)
    requires !e.TakeFault? && !e.Exit? && !e.Create?
    ensures var s' := Vm.Step(s, e).value.0; s'.spaces == s.spaces && Queue(s'.cm, q)
  {
    match e
    case AllocKpages(n) => KernelAllocKeepsQueue(s.cm, q, n);
    case FreeKpages(f) => KernelFreeKeepsQueue(s.cm, q, f);
    case _ =>
  }

  // -------------------------------------------------------------------------- whole runs

  /** No exit of the first `k` events frees a victim with a stale back link. */
  ghost predicate ListKept(states: seq<State>, events: seq<Event>, k: nat)
    requires k <= |events| < |states|
  {
    forall i {:trigger events[i]} :: 0 <= i < k && events[i].Exit? ==> !ExitBreaks(states[i].cm, events[i].a)
  }

  /** Over every such run the links hold a list of exactly the user frames, in the order in which they got
      their pages. */
  lemma {:induction false} QueueOverRuns(states: seq<State>, events: seq<Event>, codes: seq<Code>, k: nat)
    returns (q: seq<nat>)
    requires IsKernelRun(states, events, codes) && k <= |events| && ListKept(states, events, k)
    ensures Queue(states[k].cm, q) && Ordered(q, Ages(states, k))
    decreases k
  {
    if k == 0 {
      BootInv(states[0].cm);
      q := [];
    } else {
      q := QueueOverRuns(states, events, codes, k - 1);
      KernelRunSound(states, events, codes, k - 1);
      assert events[k - 1] == events[k - 1];
      q := StepOrder(states[k - 1], events[k - 1], q, Ages(states, k - 1), k);
      assert Ages(states, k) == Aged(states[k - 1].cm.entries, states[k].cm.entries, Ages(states, k - 1), k);
    }
  }

  /** In such a run a fault panics exactly when it must replace a page while fewer than two frames are
      queued or the swap file is full. */
  lemma SafeRunFaults(states: seq<State>, events: seq<Event>, codes: seq<Code>, k: nat,
                      kind: FaultKind, va: nat, env: Env) returns (q: seq<nat>)
    requires IsKernelRun(states, events, codes) && k <= |events| && ListKept(states, events, k)
    ensures Queue(states[k].cm, q)
    ensures Fault(states[k], kind, va, env).Panic? <==>
      MustReplace(states[k], kind, va) && (|q| < 2 || SwapFull(states[k].slots))
  {
    q := QueueOverRuns(states, events, codes, k);
    KernelRunSound(states, events, codes, k);
    QueueRotates(states[k].cm, q);
    FaultPanicsOverRuns(states, events, codes, k, kind, va, env);
  }

  /** The victim is the user frame whose page has been resident longest. */
  lemma VictimIsEldest(states: seq<State>, events: seq<Event>, codes: seq<Code>, k: nat, f: nat)
    requires IsKernelRun(states, events, codes) && k <= |events| && ListKept(states, events, k)
    requires UserFrame(states[k].cm.entries, f)
    ensures
      var v := states[k].cm.victim;
      UserFrame(states[k].cm.entries, v) && (f != v ==> Since(states, k, v) < Since(states, k, f))
  {
    var q := QueueOverRuns(states, events, codes, k);
    var i :| 0 <= i < |q| && q[i] == f;
    assert q[0] in q && q[0] == states[k].cm.victim;
    if i > 0 { assert Older(Ages(states, k), q[0], q[i]); }
  }

  /** Only the victim's page loses its frame in a fault. */
  lemma LostIsVictim(s: State, kind: FaultKind, va: nat, env: Env, p: Pg, f: nat)
    requires Sound(s) && Fault(s, kind, va, env).Ok? && 0 < f && Holds(s.spaces, p, FrameWord(f))
    ensures Holds(Fault(s, kind, va, env).value.0.spaces, p, FrameWord(f)) || f == s.cm.victim
  {
    match Arriving(s, kind, va)
    case None => NoneArriving(s, kind, va, env);
    case Some(h) =>
      OneArriving(s, kind, va, env, h);
      ResidentAndTlb(s, h, va, env);
      TagsAreExact(f, 0);
  }

  /** A page that loses its frame in a fault has been in memory longer than every other page there. */
  lemma EldestIsReplaced(states: seq<State>, events: seq<Event>, codes: seq<Code>, k: nat, p: Pg, f: nat, h: Pg, g: nat)
    requires IsKernelRun(states, events, codes) && k < |events| && ListKept(states, events, k)
    requires events[k].TakeFault? && 0 < f && 0 < g && p != h
    requires Holds(states[k].spaces, p, FrameWord(f)) && !Holds(states[k + 1].spaces, p, FrameWord(f))
    requires Holds(states[k].spaces, h, FrameWord(g))
    ensures Since(states, k, f) < Since(states, k, g)
  {
    KernelRunSound(states, events, codes, k);
    var s, e := states[k], events[k];
    LostIsVictim(s, e.kind, e.va, e.env, p, f);
    FrameInRam(s, h, g);
    FrameOwnership(s.spaces, s.cm.entries, s.slots, g);
    VictimIsEldest(states, events, codes, k, g);
  }
}
