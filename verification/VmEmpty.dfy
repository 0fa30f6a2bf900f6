/** A page-table word stays empty until the page's first fault, and until then nothing is stored to the
    page and no load of it has failed. */
module VmEmpty {
  import opened Common
  import opened Coremap
  import opened PageTable
  import opened Segment
  import opened AddrSpace
  import opened Tlb
  import opened Vm
  import opened VmOwn
  import opened VmView
  import opened VmFault
  import opened VmCoherence
  import opened VmDestroy
  import opened VmSteps
  import opened VmAccess
  import opened VmRun

  /** The step is a store to page `p`. */
  ghost predicate StoresTo(s: State, e: Event, p: Pg) {
    e.Store? && s.cur.Some? && s.cur.value in s.spaces && PageAt(s.spaces, s.cur.value, e.va) == Some(p)
  }

  /** A failed load is of a page never touched. */
  lemma FailedLoadIsFirst(s: State, e: Event, p: Pg)
    requires Sound(s) && e.TakeFault?
    ensures Vm.Step(s, e).Ok? && FailedLoad(s, e, Vm.Step(s, e).value.1, p) ==>
      IsPage(s.spaces, p) && WordOf(s.spaces, p) == PT_EMPTY
  {
    if Vm.Step(s, e).Ok? && FailedLoad(s, e, Vm.Step(s, e).value.1, p) {
      assert SpaceWf(s.spaces[s.cur.value]);
      FaultTarget(s.spaces, s.cur.value, e.va);
      FaultUnfolds(s, e.kind, e.va, e.env, p);
      MakeResidentSettles(s, p, e.va, e.env);
    }
  }

  /** A page still untouched after a step was untouched before it, and the step neither stored to it nor
      tried to load it. */
  lemma StillEmpty(s: State, e: Event, p: Pg)
    requires Sound(s) && Callable(s, e) && Tidy(s, e) && Vm.Step(s, e).Ok?
    requires var s' := Vm.Step(s, e).value.0; IsPage(s'.spaces, p) && WordOf(s'.spaces, p) == PT_EMPTY
    requires !(e.Create? && p.a == e.a)
    ensures IsPage(s.spaces, p) && WordOf(s.spaces, p) == PT_EMPTY
    ensures !StoresTo(s, e, p) && !FailedLoad(s, e, Vm.Step(s, e).value.1, p)
  {
    match e
    case TakeFault(kind, va, env) => FaultLeavesEmpty(s, kind, va, env, p);
    case Exit(a) =>
      DestroyKeeps(s, a);
      assert Intact(s, Destroy(s, a).value, p);
    case _ =>
  }

  lemma FaultLeavesEmpty(s: State, kind: FaultKind, va: nat, env: Env, p: Pg)
    requires Sound(s) && Fault(s, kind, va, env).Ok?
    requires var s' := Fault(s, kind, va, env).value.0; IsPage(s'.spaces, p) && WordOf(s'.spaces, p) == PT_EMPTY
    ensures IsPage(s.spaces, p) && WordOf(s.spaces, p) == PT_EMPTY
    ensures !FailedLoad(s, TakeFault(kind, va, env), Fault(s, kind, va, env).value.1, p)
  {
    if (kind.ReadFault? || kind.WriteFault?) && s.cur.Some? {
      assert SpaceWf(s.spaces[s.cur.value]);
      FaultTarget(s.spaces, s.cur.value, va);
      var target := FaultPage(s.spaces, s.cur.value, va).value;
      if target.Some? {
        FaultUnfolds(s, kind, va, env, target.value);
        ResidentLeavesEmpty(s, target.value, va, env, p);
      }
    }
  }

  lemma ResidentLeavesEmpty(s: State, q: Pg, va: nat, env: Env, p: Pg)
    requires Core(s, |s.cm.entries|) && IsPage(s.spaces, q)
    requires AddrOf(s.spaces, q) == PageFrame(va) && MakeResident(s, q, va, env).Ok?
    requires
      var s1 := MakeResident(s, q, va, env).value.0;
      IsPage(s1.spaces, p) && WordOf(s1.spaces, p) == PT_EMPTY
    ensures p != q && IsPage(s.spaces, p) && WordOf(s.spaces, p) == PT_EMPTY
  {
    MakeResidentKeeps(s, q, va, env);
    var (s1, f, ok) := MakeResident(s, q, va, env).value;
    LayoutPages(s.spaces, s1.spaces, p);
    assert p != q ==> SeenAlike(s, s1, f, p);
  }
}
