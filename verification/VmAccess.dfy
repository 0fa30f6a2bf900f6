/** User accesses through the TLB. A store changes the contents of pages as a flat memory would exactly
    when it lands on the page that holds its address; nothing else depends on what the TLB holds. */
module VmAccess {
  import opened Common
  import opened Coremap
  import opened CoremapBlocks
  import opened CoremapQueue
  import opened PageTable
  import opened Segment
  import opened AddrSpace
  import opened Tlb
  import opened Vm
  import opened VmOwn
  import opened VmView
  import opened VmFault
  import opened VmCoherence
  import opened VmDestroy
  import opened VmSteps

  /** The page the address is in, if the running space has one there. */
  function Target(s: State, va: nat): Option<Pg> {
    if s.cur.Some? && s.cur.value in s.spaces then PageAt(s.spaces, s.cur.value, va) else None
  }

  /** An access to `va` through the TLB goes to the frame of the page that holds it, or to no page's frame if
      none does. */
  ghost predicate Lands(s: State, va: nat) {
    && Translate(s, va).Some?
    && var f := Translate(s, va).value.frame;
    && f < |s.ram|
    && match Target(s, va)
       case Some(p) => 0 < f && Holds(s.spaces, p, FrameWord(f))
       case None => !UserFrame(s.cm.entries, f)
  }

  /** Stores land where they should, and the kernel writes no page's frame. Faults may leave anything in the
      TLB. */
  ghost predicate Tidy(s: State, e: Event) {
    match e
    case Store(va, b) => Lands(s, va)
    case KernelWrite(f, page) => !UserFrame(s.cm.entries, f)
    case _ => true
  }

  /** The state after a store through the TLB. */
  function AfterStore(s: State, va: nat, b: Byte): State
    requires Translate(s, va).Some? && Translate(s, va).value.frame < |s.ram|
  {
    var f := Translate(s, va).value.frame;
    s.(ram := s.ram[f := s.ram[f][va % PAGE_SIZE := b]])
  }

  lemma StoreFollows(s: State, s': State, va: nat, b: Byte, p: Pg, f: nat, page: Page)
    requires Core(s, |s.cm.entries|) && s.cur == Some(p.a) && Holds(s.spaces, p, FrameWord(f)) && 0 < f < |s.ram|
    requires PageAt(s.spaces, p.a, va) == Some(p)
    requires page == s.ram[f][va % PAGE_SIZE := b] && s' == s.(ram := s.ram[f := page])
    ensures Follows(s, Event.Store(va, b), Success, s')
  {
    forall q | IsPage(s'.spaces, q)
      ensures PageFollows(s, Event.Store(va, b), Success, s', q)
    {
      if q == p {
        StoreHere(s, s', va, b, p, f, page);
      } else {
        StoreElsewhere(s, s', p, q, f, page);
      }
    }
  }

  lemma StoreHere(s: State, s': State, va: nat, b: Byte, p: Pg, f: nat, page: Page)
    requires s.cur == Some(p.a) && Holds(s.spaces, p, FrameWord(f)) && 0 < f < |s.ram|
    requires PageAt(s.spaces, p.a, va) == Some(p)
    requires page == s.ram[f][va % PAGE_SIZE := b] && s' == s.(ram := s.ram[f := page])
    ensures PageFollows(s, Event.Store(va, b), Success, s', p)
  {
    ResidentView(s, p, f);
    ResidentView(s', p, f);
  }

  lemma ResidentView(s: State, p: Pg, f: nat)
    requires Holds(s.spaces, p, FrameWord(f)) && 0 < f < |s.ram|
    ensures View(s, p) == s.ram[f]
  {
    TagsAreExact(f, 0);
  }

  lemma StoreElsewhere(s: State, s': State, p: Pg, q: Pg, f: nat, page: Page)
    requires Core(s, |s.cm.entries|) && Holds(s.spaces, p, FrameWord(f)) && 0 < f < |s.ram|
    requires IsPage(s.spaces, q) && q != p && s' == s.(ram := s.ram[f := page])
    ensures View(s', q) == View(s, q)
  {
    TagsAreExact(f, 0);
    if WordOf(s.spaces, q) == FrameWord(f) {
      FrameHasOnePage(s.spaces, s.cm.entries, s.slots, |s.cm.entries|, p, q, FrameWord(f));
    }
    assert Backed(s.spaces, s.cm.entries, s.slots, q);
  }

  lemma TargetIsPage(s: State, va: nat)
    requires Sound(s) && Target(s, va).Some?
    ensures s.cur == Some(Target(s, va).value.a) && IsPage(s.spaces, Target(s, va).value)
  {
  }

  /** A store that lands changes one byte of its page and nothing else. */
  lemma LandedStore(s: State, va: nat, b: Byte)
    requires Sound(s) && Lands(s, va)
    ensures Sound(AfterStore(s, va, b)) && Follows(s, Event.Store(va, b), Success, AfterStore(s, va, b))
  {
    var f := Translate(s, va).value.frame;
    var page: Page := s.ram[f][va % PAGE_SIZE := b];
    var s' := AfterStore(s, va, b);
    match Target(s, va)
    case Some(p) => StoreFollows(s, s', va, b, p, f, page);
    case None =>
      KernelWriteStep(s, f, page);
      forall q | IsPage(s'.spaces, q)
        ensures PageFollows(s, Event.Store(va, b), Success, s', q)
      {
        assert PageFollows(s, KernelWrite(f, page), Success, s', q);
      }
  }

  function OtherByte(b: Byte): (r: Byte)
    ensures r != b
  {
    if b == 0 then 1 else 0
  }

  /** A store that misses the page of its address leaves it as it was. */
  lemma MissedPage(s: State, va: nat, p: Pg, b: Byte)
    requires Sound(s) && Translate(s, va).Some? && Translate(s, va).value.frame < |s.ram|
    requires Target(s, va) == Some(p) && !Lands(s, va) && IsPage(s.spaces, p) && b != View(s, p)[va % PAGE_SIZE]
    ensures !PageFollows(s, Event.Store(va, b), Success, AfterStore(s, va, b), p)
  {
    assert Backed(s.spaces, s.cm.entries, s.slots, p);
    assert View(AfterStore(s, va, b), p) == View(s, p);
  }

  /** A store to no page of the running space that hits a user frame changes some page. */
  lemma HitPage(s: State, va: nat, q: Pg, b: Byte)
    requires Translate(s, va).Some? && 0 < Translate(s, va).value.frame < |s.ram| && Target(s, va).None?
    requires Holds(s.spaces, q, FrameWord(Translate(s, va).value.frame))
    requires b != s.ram[Translate(s, va).value.frame][va % PAGE_SIZE]
    ensures !PageFollows(s, Event.Store(va, b), Success, AfterStore(s, va, b), q)
  {
    ResidentView(s, q, Translate(s, va).value.frame);
    ResidentView(AfterStore(s, va, b), q, Translate(s, va).value.frame);
  }

  /** For a store that does not land there is a byte with which some page is not what it should be. */
  lemma StrayStore(s: State, va: nat) returns (b: Byte)
    requires Sound(s) && Translate(s, va).Some? && Translate(s, va).value.frame < |s.ram| && !Lands(s, va)
    ensures !Follows(s, Event.Store(va, b), Success, AfterStore(s, va, b))
  {
    match Target(s, va)
    case Some(p) =>
      TargetIsPage(s, va);
      b := OtherByte(View(s, p)[va % PAGE_SIZE]);
      MissedPage(s, va, p, b);
    case None =>
      var f := Translate(s, va).value.frame;
      FrameOwnership(s.spaces, s.cm.entries, s.slots, f);
      var q :| Holds(s.spaces, q, FrameWord(f));
      b := OtherByte(s.ram[f][va % PAGE_SIZE]);
      HitPage(s, va, q, b);
  }

  /** Exactly the stores that land are what a flat memory makes of them, whatever byte is stored. */
  lemma StoreFollowsIff(s: State, va: nat)
    requires Sound(s) && Translate(s, va).Some? && Translate(s, va).value.frame < |s.ram|
    ensures Lands(s, va) <==> forall b :: Follows(s, Event.Store(va, b), Success, AfterStore(s, va, b))
  {
    if Lands(s, va) {
      forall b
        ensures Follows(s, Event.Store(va, b), Success, AfterStore(s, va, b))
      {
        LandedStore(s, va, b);
      }
    } else {
      var b := StrayStore(s, va);
    }
  }

  /** An access through an entry that agrees with the page table lands. */
  lemma MirrorsLands(s: State, va: nat)
    requires Sound(s) && s.cur.Some? && Translate(s, va).Some?
    requires Mirrors(s.spaces, s.cur.value, Translate(s, va).value)
    ensures Lands(s, va) && Target(s, va).Some?
  {
    var a, e := s.cur.value, Translate(s, va).value;
    var p :| Agrees(s.spaces, a, e, p);
    assert SpaceWf(s.spaces[a]);
    PageIsFound(s.spaces[a], p.sel, p.index);
    FrameInRam(s, p, e.frame);
  }

  /** With a coherent TLB every access lands on a page. */
  lemma CoherentLands(s: State, va: nat)
    requires Inv(s) && s.cur.Some? && Translate(s, va).Some?
    ensures Lands(s, va) && Target(s, va).Some?
  {
    assert Translate(s, va).value in s.tlb.slots;
    MirrorsLands(s, va);
  }

  /** The byte a user load reads through the TLB. */
  function LoadedByte(s: State, va: nat): Byte
    requires Translate(s, va).Some? && Translate(s, va).value.frame < |s.ram|
  {
    s.ram[Translate(s, va).value.frame][va % PAGE_SIZE]
  }

  /** A load that lands on a page reads its contents. */
  lemma LandedLoad(s: State, va: nat, p: Pg)
    requires Sound(s) && Lands(s, va) && Target(s, va) == Some(p)
    ensures IsPage(s.spaces, p) && LoadedByte(s, va) == View(s, p)[va % PAGE_SIZE]
  {
    ResidentView(s, p, Translate(s, va).value.frame);
  }

  /** Every tidy event keeps sizes and ownership and moves page contents as a flat memory would. */
  lemma TidyStep(s: State, e: Event)
    requires Sound(s) && Callable(s, e) && Tidy(s, e) && Vm.Step(s, e).Ok?
    ensures
      var (s', code) := Vm.Step(s, e).value;
      Sound(s') && Follows(s, e, code, s')
  {
    match e
    case Create(a, code, data) => CreateStep(s, a, code, data);
    case Activate(a) => ActivateStep(s, a);
    case TakeFault(kind, va, env) => FaultStep(s, kind, va, env);
    case Load(va) => NothingChanges(s, e, Success);
    case Store(va, b) => LandedStore(s, va, b);
    case Exit(a) => ExitStep(s, a);
    case AllocKpages(n) => AllocKpagesStep(s, n);
    case FreeKpages(f) => FreeKpagesStep(s, f);
    case KernelWrite(f, page) => KernelWriteStep(s, f, page);
  }

  lemma EnabledIsTidy(s: State, e: Event)
    requires Inv(s) && Enabled(s, e)
    ensures Tidy(s, e)
  {
    if e.Store? { CoherentLands(s, e.va); }
  }

  /** Every event of runs without stale entries keeps the whole invariant as well. */
  lemma StepKeeps(s: State, e: Event)
    requires Inv(s) && Enabled(s, e) && Vm.Step(s, e).Ok?
    ensures
      var (s', code) := Vm.Step(s, e).value;
      Inv(s') && Follows(s, e, code, s')
  {
    EnabledIsTidy(s, e);
    TidyStep(s, e);
    CoherentStep(s, e);
  }
}
