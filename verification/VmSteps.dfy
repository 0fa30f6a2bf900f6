/** Every step of the memory manager keeps the invariant, and changes the contents of pages
    exactly as a flat memory would. */
module VmSteps {
  import opened Common
  import opened Coremap
  import opened CoremapBlocks
  import opened PageTable
  import opened Segment
  import opened AddrSpace
  import opened Tlb
  import opened Vm
  import opened VmOwn
  import opened VmView
  import opened VmFault
  import opened VmCoherence
  import opened VmDestroy

  /** Sizes, ownership and a live running space: what every event keeps, whatever the TLB holds. */
  ghost predicate Sound(s: State) {
    Core(s, |s.cm.entries|) && (s.cur.Some? ==> s.cur.value in s.spaces)
  }

  ghost predicate Inv(s: State) {
    Sound(s) && Coherent(s)
  }

  /** The page of space `a` that holds user address `va`. */
  function PageAt(spaces: Spaces, a: SpaceId, va: nat): Option<Pg>
    requires a in spaces
  {
    var sp := spaces[a];
    match FindCoarse(sp, PageFrame(va))
    case None => None
    case Some(sel) =>
      match EntryIndex(sp.At(sel).base, sp.At(sel).NumPages(), PageFrame(va))
      case Panic => None
      case Ok(index) => Some(Pg(a, sel, index))
  }

  /** No page of the space has been touched. */
  ghost predicate Untouched(sp: Space) {
    forall sel: Sel, i: nat :: i < sp.At(sel).NumPages() ==> sp.At(sel).table[i] == PT_EMPTY
  }

  /** What callers of the kernel do: a new address space has a fresh name and a page-disjoint layout,
      a live one is switched to, kernel requests ask for at least one page and free live blocks. */
  ghost predicate Callable(s: State, e: Event) {
    match e
    case Create(a, code, data) => a !in s.spaces && SpaceWf(NewSpace(code, data))
    case Activate(a) => a in s.spaces
    case AllocKpages(n) => n > 0
    case FreeKpages(f) => f in KernelBlocks(s.cm)
    case _ => true
  }

  ghost predicate FaultEnabled(s: State, va: nat, env: Env) {
    s.cur.Some? && s.cur.value in s.spaces ==>
      && Find(s.tlb.slots, PageFrame(va)).None?
      && match FaultPage(s.spaces, s.cur.value, va)
         case Ok(Some(p)) => IsPage(s.spaces, p) ==> NoHazard(s, p, va, env)
         case _ => true
  }

  /** The events of runs in which user code sees a flat memory. The hardware faults only on a TLB miss
      and accesses memory only through the TLB, and the kernel writes only frames it owns. Faults that
      return with a stale TLB entry are left out; `FaultCoherentIff` says exactly which those are. */
  ghost predicate Enabled(s: State, e: Event) {
    && Callable(s, e)
    && match e
       case TakeFault(kind, va, env) => kind.ReadFault? || kind.WriteFault? ==> FaultEnabled(s, va, env)
       case Load(va) => s.cur.Some? && Translate(s, va).Some?
       case Store(va, b) => s.cur.Some? && Translate(s, va).Some? && Translate(s, va).value.dirty
       case Exit(a) => a in s.spaces
       case KernelWrite(f, page) => f < |s.ram| && !UserFrame(s.cm.entries, f)
       case _ => true
  }

  /** The page whose load from the executable failed in this step. */
  ghost predicate FailedLoad(s: State, e: Event, code: Code, p: Pg) {
    && e.TakeFault? && code.Efault? && s.cur.Some? && s.cur.value in s.spaces
    && FaultPage(s.spaces, s.cur.value, e.va) == Ok(Some(p))
    && (e.kind.ReadFault? || e.kind.WriteFault?)
  }

  /** What a flat memory holds for page `p` after the step, given what it held before. */
  ghost function Next(s: State, e: Event, code: Code, p: Pg, before: Page): Page {
    match e
    case Create(a, code, data) => if p.a == a then PageImage(NewSpace(code, data).At(p.sel), p.index) else before
    case Store(va, b) =>
      if s.cur.Some? && s.cur.value in s.spaces && PageAt(s.spaces, s.cur.value, va) == Some(p)
      then before[va % PAGE_SIZE := b] else before
    case TakeFault(_, va, env) =>
      if FailedLoad(s, e, code, p) && p.a in s.spaces
      then LoadedPage(SegOf(s.spaces, p), p.index, env.read) else before
    case _ => before
  }

  /** Page `p` after the step is what the flat memory says. */
  ghost predicate PageFollows(s: State, e: Event, code: Code, s': State, p: Pg)
    requires IsPage(s'.spaces, p)
  {
    if e.Create? && p.a == e.a then View(s', p) == PageImage(NewSpace(e.code, e.data).At(p.sel), p.index)
    else IsPage(s.spaces, p) && View(s', p) == Next(s, e, code, p, View(s, p))
  }

  ghost predicate Follows(s: State, e: Event, code: Code, s': State) {
    forall p :: IsPage(s'.spaces, p) ==> PageFollows(s, e, code, s', p)
  }

  // ------------------------------------------------------------------------ faults

  lemma FaultTarget(spaces: Spaces, a: SpaceId, va: nat)
    requires a in spaces && SpaceWf(spaces[a])
    ensures FaultPage(spaces, a, va).Ok?
    ensures
      var target := FaultPage(spaces, a, va).value;
      target.Some? ==>
        && IsPage(spaces, target.value) && target.value.a == a
        && AddrOf(spaces, target.value) == PageFrame(va)
        && PageAt(spaces, a, va) == target
  {
    var sp := spaces[a];
    if FindSegment(sp, va).Some? {
      FaultAddressIsFound(sp, va);
      assert PageFrame(PageFrame(va)) == PageFrame(va);
    }
  }

  /** `vm_fault` with any outcome, whatever the TLB holds. */
  lemma FaultStep(s: State, kind: FaultKind, va: nat, env: Env)
    requires Sound(s) && Fault(s, kind, va, env).Ok?
    ensures
      var (s', code) := Fault(s, kind, va, env).value;
      Sound(s') && Follows(s, TakeFault(kind, va, env), code, s')
  {
    if (kind.ReadFault? || kind.WriteFault?) && s.cur.Some? {
      assert SpaceWf(s.spaces[s.cur.value]);
      FaultTarget(s.spaces, s.cur.value, va);
      var target := FaultPage(s.spaces, s.cur.value, va).value;
      if target.Some? {
        ResidentStep(s, kind, va, env, target.value);
      } else {
        NothingChanges(s, TakeFault(kind, va, env), Efault);
      }
    } else {
      NothingChanges(s, TakeFault(kind, va, env), Fault(s, kind, va, env).value.1);
    }
  }

  lemma NothingChanges(s: State, e: Event, code: Code)
    requires e.TakeFault? || e.Load?
    requires forall p :: !FailedLoad(s, e, code, p)
    ensures Follows(s, e, code, s)
  {
  }

  lemma ResidentStep(s: State, kind: FaultKind, va: nat, env: Env, p: Pg)
    requires Sound(s) && Fault(s, kind, va, env).Ok?
    requires (kind.ReadFault? || kind.WriteFault?) && s.cur == Some(p.a)
    requires FaultPage(s.spaces, p.a, va) == Ok(Some(p)) && IsPage(s.spaces, p)
    requires AddrOf(s.spaces, p) == PageFrame(va)
    ensures
      var (s', code) := Fault(s, kind, va, env).value;
      Sound(s') && Follows(s, TakeFault(kind, va, env), code, s')
  {
    FaultUnfolds(s, kind, va, env, p);
    var (s1, f, ok) := MakeResident(s, p, va, env).value;
    MakeResidentKeeps(s, p, va, env);
    ResidentFollows(s, TakeFault(kind, va, env), s1, p, f, ok);
    if ok {
      InstallStep(s, TakeFault(kind, va, env), s1, va, f, SegOf(s.spaces, p).Writable());
    }
  }

  lemma InstallStep(s: State, e: Event, s1: State, va: nat, f: nat, writable: bool)
    requires Sound(s1) && Follows(s, e, Success, s1) && Install(s1, va, f, writable).Ok?
    ensures
      var s' := Install(s1, va, f, writable).value;
      Sound(s') && Follows(s, e, Success, s')
  {
    FollowsSame(s, e, Success, s1, Install(s1, va, f, writable).value);
  }

  /** Exactly when a fault taken on a TLB miss returns with a coherent TLB. */
  lemma FaultCoherentIff(s: State, kind: FaultKind, va: nat, env: Env, p: Pg)
    requires Inv(s) && (kind.ReadFault? || kind.WriteFault?)
    requires s.cur.Some? && FaultPage(s.spaces, s.cur.value, va) == Ok(Some(p))
    requires Find(s.tlb.slots, PageFrame(va)).None?
    ensures IsPage(s.spaces, p) && p.a == s.cur.value
    ensures Fault(s, kind, va, env).Ok? ==>
      (Coherent(Fault(s, kind, va, env).value.0) <==> NoHazard(s, p, va, env))
  {
    assert SpaceWf(s.spaces[s.cur.value]);
    FaultTarget(s.spaces, s.cur.value, va);
    if Fault(s, kind, va, env).Ok? {
      FaultUnfolds(s, kind, va, env, p);
      ReturnCoherentIff(s, p, va, env);
      MakeResidentKeeps(s, p, va, env);
    }
  }

  lemma FaultUnfolds(s: State, kind: FaultKind, va: nat, env: Env, p: Pg)
    requires Fault(s, kind, va, env).Ok? && (kind.ReadFault? || kind.WriteFault?)
    requires s.cur == Some(p.a) && p.a in s.spaces && IsPage(s.spaces, p)
    requires FaultPage(s.spaces, p.a, va) == Ok(Some(p))
    ensures MakeResident(s, p, va, env).Ok?
    ensures
      var (s1, f, ok) := MakeResident(s, p, va, env).value;
      && (ok ==> Install(s1, va, f, SegOf(s.spaces, p).Writable()).Ok?)
      && Fault(s, kind, va, env).value ==
         (if ok then (Install(s1, va, f, SegOf(s.spaces, p).Writable()).value, Success) else (s1, Efault))
  {
  }

  lemma FollowsSame(s: State, e: Event, code: Code, s1: State, s': State)
    requires Follows(s, e, code, s1)
    requires s'.spaces == s1.spaces && s'.ram == s1.ram && s'.swap == s1.swap
    ensures Follows(s, e, code, s')
  {
    forall q | IsPage(s'.spaces, q)
      ensures PageFollows(s, e, code, s', q)
    {
      assert PageFollows(s, e, code, s1, q);
    }
  }

  lemma ResidentFollows(s: State, e: Event, s1: State, p: Pg, f: nat, ok: bool)
    requires e.TakeFault? && (e.kind.ReadFault? || e.kind.WriteFault?) && s.cur == Some(p.a) && IsPage(s.spaces, p)
    requires FaultPage(s.spaces, p.a, e.va) == Ok(Some(p))
    requires SameLayout(s.spaces, s1.spaces) && IsPage(s1.spaces, p)
    requires View(s1, p) == FirstContents(s, p, e.env, ok)
    requires forall q :: IsPage(s.spaces, q) && q != p ==> SeenAlike(s, s1, f, q)
    ensures Follows(s, e, if ok then Success else Efault, s1)
  {
    forall q | IsPage(s1.spaces, q)
      ensures PageFollows(s, e, if ok then Success else Efault, s1, q)
    {
      LayoutPages(s.spaces, s1.spaces, q);
      if q != p { assert SeenAlike(s, s1, f, q); }
    }
  }

  // ------------------------------------------------------------------ other events

  /** A new address space has no page touched. */
  lemma NewIsUntouched(code: Region, data: Region)
    ensures Untouched(NewSpace(code, data))
  {
  }

  lemma CreateStep(s: State, a: SpaceId, code: Region, data: Region)
    requires Sound(s) && a !in s.spaces && SpaceWf(NewSpace(code, data))
    ensures
      var s' := s.(spaces := s.spaces[a := NewSpace(code, data)]);
      Sound(s') && Follows(s, Create(a, code, data), Success, s')
  {
    var spaces' := s.spaces[a := NewSpace(code, data)];
    var s' := s.(spaces := spaces');
    NewIsUntouched(code, data);
    OwnCreated(s.spaces, s.cm.entries, s.slots, a, NewSpace(code, data));
    forall p | IsPage(spaces', p)
      ensures PageFollows(s, Create(a, code, data), Success, s', p)
    {
    }
  }

  lemma UntouchedWord(spaces: Spaces, a: SpaceId, sp: Space, p: Pg)
    requires Untouched(sp) && IsPage(spaces[a := sp], p)
    ensures p.a == a ==> WordOf(spaces[a := sp], p) == PT_EMPTY
  {
  }

  lemma OwnCreated(spaces: Spaces, es: seq<Entry>, slots: set<nat>, a: SpaceId, sp: Space)
    requires Own(spaces, es, slots, |es|) && a !in spaces && Untouched(sp)
    ensures Own(spaces[a := sp], es, slots, |es|)
  {
    var spaces' := spaces[a := sp];
    forall p | IsPage(spaces', p)
      ensures Backed(spaces', es, slots, p)
    {
      UntouchedWord(spaces, a, sp, p);
      assert p.a != a ==> IsPage(spaces, p) && Backed(spaces, es, slots, p);
    }
    forall p, q, w | Holds(spaces', p, w) && Holds(spaces', q, w) && IsSwapped(w)
      ensures p == q
    {
      UntouchedWord(spaces, a, sp, p);
      UntouchedWord(spaces, a, sp, q);
      assert Holds(spaces, p, w) && Holds(spaces, q, w);
    }
    forall f: nat | UserFrame(es, f) && f != |es|
      ensures exists p :: Holds(spaces', p, FrameWord(f))
    {
      var p :| Holds(spaces, p, FrameWord(f));
      assert Holds(spaces', p, FrameWord(f));
    }
    forall t: nat | InUse(slots, t)
      ensures exists p :: Holds(spaces', p, SlotWord(t))
    {
      var p :| Holds(spaces, p, SlotWord(t));
      assert Holds(spaces', p, SlotWord(t));
    }
  }

  /** Entries of one space do not care about the tables of another. */
  lemma AgreeElsewhere(spaces: Spaces, spaces': Spaces, a: SpaceId, slots: seq<TlbEntry>)
    requires AllAgree(spaces, a, slots) && a in spaces && a in spaces' && spaces'[a] == spaces[a]
    ensures AllAgree(spaces', a, slots)
  {
    forall i | 0 <= i < |slots| && slots[i].Maps?
      ensures Mirrors(spaces', a, slots[i])
    {
      assert Mirrors(spaces, a, slots[i]);
      var p :| Agrees(spaces, a, slots[i], p);
      assert Agrees(spaces', a, slots[i], p);
    }
  }

  lemma ActivateStep(s: State, a: SpaceId)
    requires Sound(s) && a in s.spaces
    ensures
      var s' := Flush(s).(cur := Some(a));
      Sound(s') && Coherent(s') && Follows(s, Activate(a), Success, s')
  {
    NoneAgree(s.spaces, a, s.tlb);
    Unseen(s, Activate(a), Flush(s).(cur := Some(a)));
  }

  /** A step that leaves tables, frames and swap file alone shows nothing. */
  lemma Unseen(s: State, e: Event, s': State)
    requires !e.Create? && !e.Store? && !e.TakeFault?
    requires s'.spaces == s.spaces && s'.ram == s.ram && s'.swap == s.swap
    ensures Follows(s, e, Success, s')
  {
    forall p | IsPage(s'.spaces, p)
      ensures PageFollows(s, e, Success, s', p)
    {
    }
  }

  lemma ExitStep(s: State, a: SpaceId)
    requires Sound(s) && a in s.spaces && Destroy(s, a).Ok?
    ensures
      var s' := Destroy(s, a).value;
      Sound(s') && Follows(s, Exit(a), Success, s')
  {
    DestroyKeeps(s, a);
    var s' := Destroy(s, a).value;
    forall p | IsPage(s'.spaces, p)
      ensures PageFollows(s, Exit(a), Success, s', p)
    {
      assert Intact(s, s', p);
    }
  }

  /** A change to frames that are no user frames before or after. */
  lemma OwnKernelChange(spaces: Spaces, es: seq<Entry>, es': seq<Entry>, slots: set<nat>)
    requires Own(spaces, es, slots, |es|) && |es'| == |es|
    requires forall f: nat :: UserFrame(es, f) ==> SameMeta(es[f], es'[f])
    requires forall f: nat :: UserFrame(es', f) ==> UserFrame(es, f)
    ensures Own(spaces, es', slots, |es'|)
  {
    forall p | IsPage(spaces, p)
      ensures Backed(spaces, es', slots, p)
    {
      assert Backed(spaces, es, slots, p);
      var w := WordOf(spaces, p);
      assert IsResident(w) ==> UserFrame(es, w / PAGE_SIZE);
    }
  }

  lemma AllocKpagesStep(s: State, n: nat)
    requires Sound(s) && n > 0
    ensures AllocateKernel(s.cm, n).Ok?
    ensures
      var s' := s.(cm := AllocateKernel(s.cm, n).value.0);
      Sound(s') && Follows(s, AllocKpages(n), Success, s')
  {
    AllocateKernelIsFirstFit(s.cm, n);
    var (cm', f) := AllocateKernel(s.cm, n).value;
    var es, es' := s.cm.entries, cm'.entries;
    forall g: nat | g < |es|
      ensures UserFrame(es, g) ==> SameMeta(es[g], es'[g])
      ensures UserFrame(es', g) ==> UserFrame(es, g)
    {
      assert f != 0 && !(f <= g < f + n) ==> SameMeta(es[g], es'[g]);
    }
    OwnKernelChange(s.spaces, es, es', s.slots);
    Unseen(s, AllocKpages(n), s.(cm := cm'));
  }

  lemma FreeKpagesStep(s: State, f: nat)
    requires Sound(s) && f in KernelBlocks(s.cm)
    ensures FreeKernel(s.cm, f).Ok?
    ensures
      var s' := s.(cm := FreeKernel(s.cm, f).value);
      Sound(s') && Follows(s, FreeKpages(f), Success, s')
  {
    FreeKernelFreesItsBlock(s.cm, f);
    var cm' := FreeKernel(s.cm, f).value;
    var es, es' := s.cm.entries, cm'.entries;
    assert BlockAt(es, f);
    forall g: nat | g < |es|
      ensures UserFrame(es, g) ==> SameMeta(es[g], es'[g])
      ensures UserFrame(es', g) ==> UserFrame(es, g)
    {
      assert !(f <= g < f + es[f].allocSize) ==> SameMeta(es[g], es'[g]);
    }
    OwnKernelChange(s.spaces, es, es', s.slots);
    Unseen(s, FreeKpages(f), s.(cm := cm'));
  }

  lemma KernelWriteStep(s: State, f: nat, page: Page)
    requires Sound(s) && f < |s.ram| && !UserFrame(s.cm.entries, f)
    ensures
      var s' := s.(ram := s.ram[f := page]);
      Sound(s') && Follows(s, KernelWrite(f, page), Success, s')
  {
    var s' := s.(ram := s.ram[f := page]);
    forall p | IsPage(s'.spaces, p)
      ensures PageFollows(s, KernelWrite(f, page), Success, s', p)
    {
      assert Backed(s.spaces, s.cm.entries, s.slots, p);
    }
  }

  /** Every event keeps sizes, ownership and the running space live, whatever the TLB holds. */
  lemma SoundStep(s: State, e: Event)
    requires Sound(s) && Callable(s, e) && Step(s, e).Ok?
    ensures Sound(Step(s, e).value.0)
  {
    match e
    case Create(a, code, data) => CreateStep(s, a, code, data);
    case Activate(a) => ActivateStep(s, a);
    case TakeFault(kind, va, env) => FaultStep(s, kind, va, env);
    case Exit(a) => ExitStep(s, a);
    case AllocKpages(n) => AllocKpagesStep(s, n);
    case FreeKpages(f) => FreeKpagesStep(s, f);
    case _ =>
  }

  /** An enabled event keeps the TLB coherent. */
  lemma CoherentStep(s: State, e: Event)
    requires Inv(s) && Enabled(s, e) && Step(s, e).Ok?
    ensures Coherent(Step(s, e).value.0)
  {
    match e
    case Create(a, code, data) =>
      if s.cur.Some? { AgreeElsewhere(s.spaces, s.spaces[a := NewSpace(code, data)], s.cur.value, s.tlb.slots); }
    case Activate(a) => ActivateStep(s, a);
    case TakeFault(kind, va, env) => FaultCoherent(s, kind, va, env);
    case Exit(a) => ExitCoherent(s, a);
    case _ =>
  }

  lemma ExitCoherent(s: State, a: SpaceId)
    requires Inv(s) && a in s.spaces && Step(s, Exit(a)).Ok?
    ensures Coherent(Step(s, Exit(a)).value.0)
  {
    DestroyKeeps(s, a);
    var s' := Destroy(s, a).value;
    if s'.cur.Some? { AgreeElsewhere(s.spaces, s'.spaces, s.cur.value, s.tlb.slots); }
  }

  lemma FaultCoherent(s: State, kind: FaultKind, va: nat, env: Env)
    requires Inv(s) && Enabled(s, TakeFault(kind, va, env)) && Fault(s, kind, va, env).Ok?
    ensures Coherent(Fault(s, kind, va, env).value.0)
  {
    if (kind.ReadFault? || kind.WriteFault?) && s.cur.Some? {
      assert SpaceWf(s.spaces[s.cur.value]);
      FaultTarget(s.spaces, s.cur.value, va);
      var target := FaultPage(s.spaces, s.cur.value, va).value;
      if target.Some? { FaultCoherentIff(s, kind, va, env, target.value); }
    }
  }

  // ------------------------------------------------------------------- user accesses

  lemma FrameInRam(s: State, p: Pg, f: nat)
    requires Core(s, |s.cm.entries|) && Holds(s.spaces, p, FrameWord(f)) && 0 < f
    ensures f < |s.ram|
  {
    assert Backed(s.spaces, s.cm.entries, s.slots, p);
    TagsAreExact(f, 0);
  }
}
