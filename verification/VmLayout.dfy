/** Over whole runs an address space keeps the segments it was created with. From these and the events so far
    follow which pages may be written, which are untouched, and the result of every fault. */
module VmLayout {
  import opened Common
  import opened Coremap
  import opened PageTable
  import opened Segment
  import opened AddrSpace
  import opened Tlb
  import opened Vm
  import opened VmOwn
  import opened VmView
  import opened VmFault
  import opened VmCoherence
  import opened VmDestroy
  import opened VmSteps
  import opened VmRun
  import opened VmAccess

  // ------------------------------------------------------------------------ one fault

  /** The page of a read or write fault. */
  function Wanted(s: State, e: Event): Option<Pg> {
    if e.TakeFault? && (e.kind.ReadFault? || e.kind.WriteFault?) && s.cur.Some? && s.cur.value in s.spaces then
      match FaultPage(s.spaces, s.cur.value, e.va)
      case Ok(target) => target
      case Panic => None
    else None
  }

  lemma NothingWanted(s: State, kind: FaultKind, va: nat, env: Env)
    requires Sound(s) && Wanted(s, TakeFault(kind, va, env)).None? && Fault(s, kind, va, env).Ok?
    ensures Fault(s, kind, va, env).value ==
      (s, if kind.OtherFault? then Einval else if kind.ReadOnlyFault? then Eacces else Efault)
  {
  }

  lemma PageFound(s: State, e: Event, p: Pg)
    requires Sound(s) && Wanted(s, e) == Some(p)
    ensures s.cur == Some(p.a) && IsPage(s.spaces, p) && AddrOf(s.spaces, p) == PageFrame(e.va)
    ensures FaultPage(s.spaces, p.a, e.va) == Ok(Some(p))
  {
    assert SpaceWf(s.spaces[s.cur.value]);
    FaultTarget(s.spaces, s.cur.value, e.va);
  }

  lemma PageMade(s: State, p: Pg, va: nat, env: Env) returns (s1: State, f: nat, ok: bool)
    requires Sound(s) && IsPage(s.spaces, p) && AddrOf(s.spaces, p) == PageFrame(va) && MakeResident(s, p, va, env).Ok?
    ensures MakeResident(s, p, va, env) == Ok((s1, f, ok)) && ok == Arrives(s.spaces, p, env)
    ensures MadeResident(s, s1, p, f, FirstContents(s, p, env, ok))
    ensures s1.tlb == if Flushed(s, p, va, env) then Invalidate(s.tlb) else s.tlb
  {
    MakeResidentKeeps(s, p, va, env);
    ResidentAndTlb(s, p, va, env);
    var made := MakeResident(s, p, va, env).value;
    s1, f, ok := made.0, made.1, made.2;
  }

  /** A fault makes its page resident, state `s1`, and then writes the TLB unless the page's load failed. */
  lemma PageWanted(s: State, kind: FaultKind, va: nat, env: Env, p: Pg) returns (s1: State, f: nat, ok: bool)
    requires Sound(s) && Wanted(s, TakeFault(kind, va, env)) == Some(p) && Fault(s, kind, va, env).Ok?
    ensures IsPage(s.spaces, p) && AddrOf(s.spaces, p) == PageFrame(va) && p.a == s.cur.value
    ensures MakeResident(s, p, va, env) == Ok((s1, f, ok)) && ok == Arrives(s.spaces, p, env)
    ensures MadeResident(s, s1, p, f, FirstContents(s, p, env, ok))
    ensures s1.tlb == if Flushed(s, p, va, env) then Invalidate(s.tlb) else s.tlb
    ensures
      var (s', code) := Fault(s, kind, va, env).value;
      && code == (if ok then Success else Efault)
      && (if ok then Install(s1, va, f, SegOf(s.spaces, p).Writable()) == Ok(s') else s' == s1)
      && s'.spaces == s1.spaces && s'.cur == s1.cur
  {
    PageFound(s, TakeFault(kind, va, env), p);
    FaultUnfolds(s, kind, va, env, p);
    s1, f, ok := PageMade(s, p, va, env);
  }

  // ------------------------------------------------------------------------ segments

  /** The regions space `a` was last created with among the first `k` events. */
  function Regions(events: seq<Event>, k: nat, a: SpaceId): Option<(Region, Region)>
    requires k <= |events|
    decreases k
  {
    if k == 0 then None
    else if events[k - 1].Create? && events[k - 1].a == a then Some((events[k - 1].code, events[k - 1].data))
    else Regions(events, k - 1, a)
  }

  /** The segments of two address spaces are alike but for their page tables. */
  ghost predicate SameSpace(sp: Space, sp': Space) {
    forall sel: Sel :: SameSeg(sp.At(sel), sp'.At(sel))
  }

  lemma FaultLayout(s: State, kind: FaultKind, va: nat, env: Env)
    requires Sound(s) && Fault(s, kind, va, env).Ok?
    ensures SameLayout(s.spaces, Fault(s, kind, va, env).value.0.spaces)
  {
    match Wanted(s, TakeFault(kind, va, env))
    case None => NothingWanted(s, kind, va, env);
    case Some(p) => var s1, f, ok := PageWanted(s, kind, va, env, p);
  }

  /** Only creating a space gives it segments. */
  lemma LayoutStep(s: State, e: Event, a: SpaceId)
    requires Sound(s) && Callable(s, e) && Vm.Step(s, e).Ok? && a in Vm.Step(s, e).value.0.spaces
    ensures
      var s' := Vm.Step(s, e).value.0;
      if e.Create? && e.a == a then s'.spaces[a] == NewSpace(e.code, e.data)
      else a in s.spaces && SameSpace(s.spaces[a], s'.spaces[a])
  {
    match e
    case TakeFault(kind, va, env) => FaultLayout(s, kind, va, env);
    case Exit(b) => DestroyKeeps(s, b);
    case _ =>
  }

  /** Every live address space has the segments it was created with. */
  lemma {:induction false} LayoutOverRuns(states: seq<State>, events: seq<Event>, codes: seq<Code>, k: nat, a: SpaceId)
    requires IsKernelRun(states, events, codes) && k <= |events| && a in states[k].spaces
    ensures Regions(events, k, a).Some?
    ensures var (code, data) := Regions(events, k, a).value; SameSpace(NewSpace(code, data), states[k].spaces[a])
    decreases k
  {
    if k > 0 {
      KernelRunSound(states, events, codes, k - 1);
      assert Stepped(states[k - 1], events[k - 1], states[k], codes[k - 1]);
      LayoutStep(states[k - 1], events[k - 1], a);
      if !(events[k - 1].Create? && events[k - 1].a == a) {
        LayoutOverRuns(states, events, codes, k - 1, a);
        SameTwice(NewSpace(Regions(events, k, a).value.0, Regions(events, k, a).value.1),
                  states[k - 1].spaces[a], states[k].spaces[a]);
      }
    }
  }

  lemma SameTwice(sp: Space, sp1: Space, sp2: Space)
    requires SameSpace(sp, sp1) && SameSpace(sp1, sp2)
    ensures SameSpace(sp, sp2)
  {
    forall sel: Sel
      ensures SameSeg(sp.At(sel), sp2.At(sel))
    {
      assert SameSeg(sp.At(sel), sp1.At(sel)) && SameSeg(sp1.At(sel), sp2.At(sel));
    }
  }

  // ------------------------------------------------------------------------ permissions

  /** The pages of this segment may be written. */
  predicate MayWrite(code: Region, data: Region, sel: Sel) {
    match sel
    case Code => code.writeable
    case Data => data.writeable
    case Stack => true
  }

  lemma WritableIsDefined(code: Region, data: Region, sel: Sel)
    ensures NewSpace(code, data).At(sel).Writable() <==> MayWrite(code, data, sel)
  {
  }

  /** In every state of every VM run a valid TLB entry is of a page of the running space and allows writing
      exactly if the page's segment was defined writeable, or is the stack. */
  lemma EntriesAllowExactly(states: seq<State>, events: seq<Event>, codes: seq<Code>, k: nat, i: nat) returns (p: Pg)
    requires IsVmRun(states, events, codes) && k <= |events| && states[k].cur.Some?
    requires i < |states[k].tlb.slots| && states[k].tlb.slots[i].Maps?
    ensures
      var (s, e) := (states[k], states[k].tlb.slots[i]);
      && p.a == s.cur.value && IsPage(s.spaces, p) && AddrOf(s.spaces, p) == e.page
      && Regions(events, k, p.a).Some?
      && var (code, data) := Regions(events, k, p.a).value; e.dirty <==> MayWrite(code, data, p.sel)
  {
    RunInv(states, events, codes, k);
    var s := states[k];
    var a, e := s.cur.value, s.tlb.slots[i];
    assert Mirrors(s.spaces, a, e);
    p :| Agrees(s.spaces, a, e, p);
    LayoutOverRuns(states, events, codes, k, a);
    var (code, data) := Regions(events, k, a).value;
    WritableIsDefined(code, data, p.sel);
    assert SameSeg(NewSpace(code, data).At(p.sel), s.spaces[a].At(p.sel));
  }

  lemma TargetIs(s: State, va: nat, p: Pg)
    requires Sound(s) && s.cur == Some(p.a) && IsPage(s.spaces, p) && AddrOf(s.spaces, p) == PageFrame(va)
    ensures Target(s, va) == Some(p)
  {
    assert SpaceWf(s.spaces[p.a]);
    PageIsFound(s.spaces[p.a], p.sel, p.index);
  }

  /** A user store goes only to a page that may be written. */
  lemma StoresAllowed(states: seq<State>, events: seq<Event>, codes: seq<Code>, k: nat)
    requires IsVmRun(states, events, codes) && k < |events| && events[k].Store?
    ensures
      var (s, va) := (states[k], events[k].va);
      && Target(s, va).Some? && Regions(events, k, Target(s, va).value.a).Some?
      && var (code, data) := Regions(events, k, Target(s, va).value.a).value;
         MayWrite(code, data, Target(s, va).value.sel)
  {
    RunInv(states, events, codes, k);
    var s, va := states[k], events[k].va;
    assert Enabled(s, events[k]);
    var p := EntriesAllowExactly(states, events, codes, k, Find(s.tlb.slots, PageFrame(va)).value);
    TargetIs(s, va, p);
  }

  // ---------------------------------------------------------------------- loads

  /** Byte `b` of an initialised part of `fileSize` bytes at address `va` is on this page. */
  predicate FileByte(va: nat, fileSize: nat, page: nat, b: nat) {
    b < fileSize && PageFrame(va + b) == page
  }

  /** The file has every byte of the initialised part that is on this page. */
  ghost predicate FileHolds(va: nat, fileSize: nat, offset: nat, file: seq<Byte>, page: nat) {
    forall b: nat :: FileByte(va, fileSize, page, b) ==> offset + b < |file|
  }

  lemma LoadReads(seg: Seg, index: nat, b: nat)
    requires SegWf(seg) && index < seg.NumPages()
    ensures FileByte(seg.base, seg.fileSize, seg.PageAddr(index), b) <==> Reads(seg, index, b)
  {
    ReadOnce(seg, index, b);
  }

  /** A load reads nothing exactly when no byte of the initialised part is on the page. */
  lemma LoadIsEmptyIff(seg: Seg, index: nat)
    requires SegWf(seg) && index < seg.NumPages()
    ensures LoadOf(seg, index).len == 0 <==>
      forall b: nat :: !FileByte(seg.base, seg.fileSize, seg.PageAddr(index), b)
  {
    var l := LoadOf(seg, index);
    if l.len > 0 {
      LoadReads(seg, index, l.src - seg.fileOffset);
    } else {
      forall b: nat
        ensures !FileByte(seg.base, seg.fileSize, seg.PageAddr(index), b)
      {
        LoadReads(seg, index, b);
      }
    }
  }

  /** The load of a page succeeds exactly when the read returns no error and the file has the bytes. */
  lemma LoadSucceedsIff(seg: Seg, index: nat, read: ReadOutcome)
    requires SegWf(seg) && index < seg.NumPages()
    ensures LoadSucceeds(seg, LoadOf(seg, index), read) <==>
      read.Complete? && FileHolds(seg.base, seg.fileSize, seg.fileOffset, seg.file, seg.PageAddr(index))
  {
    var l := LoadOf(seg, index);
    if l.len > 0 {
      var b := l.src + l.len - 1 - seg.fileOffset;
      LoadReads(seg, index, b);
      assert FileByte(seg.base, seg.fileSize, seg.PageAddr(index), b);
    }
    forall b: nat | FileByte(seg.base, seg.fileSize, seg.PageAddr(index), b)
      ensures seg.fileOffset + b < l.src + l.len
    {
      LoadReads(seg, index, b);
    }
  }

  /** How far into the segment its first byte on the page is. */
  function FirstOn(seg: Seg, index: nat): nat {
    if seg.base <= seg.PageAddr(index) then seg.PageAddr(index) - seg.base else 0
  }

  /** After a load the frame has the bytes of the file that are on the page, as far as the file has them and
      the read got, and zeros elsewhere. */
  lemma LoadedExact(seg: Seg, index: nat, read: ReadOutcome, i: nat, b: int)
    requires SegWf(seg) && index < seg.NumPages() && i < PAGE_SIZE && b == seg.PageAddr(index) + i - seg.base
    ensures LoadedPage(seg, index, read)[i] ==
      if 0 <= b < seg.fileSize && seg.fileOffset + b < |seg.file|
         && (read.ReadError? ==> b < FirstOn(seg, index) + read.got)
      then seg.file[seg.fileOffset + b] else 0
  {
    var l := LoadOf(seg, index);
    if 0 <= b { LoadReads(seg, index, b); }
    if l.len > 0 { LoadReads(seg, index, l.src - seg.fileOffset); }
  }

  // --------------------------------------------------------------------- the history

  /** The space whose user code runs after the first `k` events. */
  function RunningAt(events: seq<Event>, k: nat): Option<SpaceId>
    requires k <= |events|
    decreases k
  {
    if k == 0 then None
    else
      match events[k - 1]
      case Activate(a) => Some(a)
      case Exit(a) => if RunningAt(events, k - 1) == Some(a) then None else RunningAt(events, k - 1)
      case _ => RunningAt(events, k - 1)
  }

  predicate InRegion(r: Region, va: nat) {
    r.va <= va < r.va + r.memSize
  }

  predicate OnStack(va: nat) {
    USERSTACK - STACK_PAGES * PAGE_SIZE <= va < USERSTACK
  }

  /** The address is one of a region's, or of the stack. */
  predicate InProgram(r: (Region, Region), va: nat) {
    InRegion(r.0, va) || InRegion(r.1, va) || OnStack(va)
  }

  /** Event `k` is a read or write fault of space `a` at an address of its program. */
  predicate Accesses(events: seq<Event>, k: nat, a: SpaceId)
    requires k < |events|
  {
    && events[k].TakeFault? && (events[k].kind.ReadFault? || events[k].kind.WriteFault?)
    && RunningAt(events, k) == Some(a)
    && Regions(events, k, a).Some? && InProgram(Regions(events, k, a).value, events[k].va)
  }

  /** A fault for this page of space `a` is among the first `k` events, after the space was created. */
  predicate Touched(events: seq<Event>, k: nat, a: SpaceId, page: nat)
    requires k <= |events|
    decreases k
  {
    if k == 0 then false
    else if events[k - 1].Create? && events[k - 1].a == a then false
    else (Accesses(events, k - 1, a) && PageFrame(events[k - 1].va) == page) || Touched(events, k - 1, a, page)
  }

  /** The file has what the page of address `va` needs of it. */
  ghost predicate FileServes(r: (Region, Region), va: nat) {
    var region := if InRegion(r.0, va) then r.0 else r.1;
    FileHolds(region.va, region.fileSize, region.offset, region.file, PageFrame(va))
  }

  /** The result of the fault that is event `k`, from what happened before. */
  ghost function FaultCode(events: seq<Event>, k: nat): Code
    requires k < |events| && events[k].TakeFault?
  {
    var TakeFault(kind, va, env) := events[k];
    if kind.OtherFault? then Einval
    else if kind.ReadOnlyFault? then Eacces
    else
      match RunningAt(events, k)
      case None => Efault
      case Some(a) =>
        if !Accesses(events, k, a) then Efault
        else if OnStack(va) || Touched(events, k, a, PageFrame(va)) then Success
        else if env.read.Complete? && FileServes(Regions(events, k, a).value, va) then Success
        else Efault
  }

  lemma {:induction false} RunningExact(states: seq<State>, events: seq<Event>, codes: seq<Code>, k: nat)
    requires IsKernelRun(states, events, codes) && k <= |events|
    ensures states[k].cur == RunningAt(events, k)
    decreases k
  {
    if k > 0 {
      KernelRunSound(states, events, codes, k - 1);
      RunningExact(states, events, codes, k - 1);
      assert Stepped(states[k - 1], events[k - 1], states[k], codes[k - 1]);
      RunningStep(states[k - 1], events[k - 1]);
    }
  }

  lemma RunningStep(s: State, e: Event)
    requires Sound(s) && Callable(s, e) && Vm.Step(s, e).Ok?
    ensures Vm.Step(s, e).value.0.cur ==
      match e
      case Activate(a) => Some(a)
      case Exit(a) => if s.cur == Some(a) then None else s.cur
      case _ => s.cur
  {
    match e
    case TakeFault(kind, va, env) => FaultRunning(s, kind, va, env);
    case Exit(a) => DestroyKeeps(s, a);
    case _ =>
  }

  lemma FaultRunning(s: State, kind: FaultKind, va: nat, env: Env)
    requires Sound(s) && Fault(s, kind, va, env).Ok?
    ensures Fault(s, kind, va, env).value.0.cur == s.cur
  {
    match Wanted(s, TakeFault(kind, va, env))
    case None => NothingWanted(s, kind, va, env);
    case Some(p) => var s1, f, ok := PageWanted(s, kind, va, env, p);
  }

  /** A page is untouched after an event exactly if it was before and the event is not a fault for it. */
  lemma UntouchedStep(s: State, e: Event, p: Pg)
    requires Sound(s) && Callable(s, e) && Vm.Step(s, e).Ok? && IsPage(Vm.Step(s, e).value.0.spaces, p)
    requires !(e.Create? && e.a == p.a)
    ensures IsPage(s.spaces, p)
    ensures WordOf(Vm.Step(s, e).value.0.spaces, p) == PT_EMPTY <==>
      WordOf(s.spaces, p) == PT_EMPTY && Wanted(s, e) != Some(p)
  {
    match e
    case TakeFault(kind, va, env) => FaultTouches(s, kind, va, env, p);
    case Exit(a) =>
      DestroyKeeps(s, a);
      assert Intact(s, Destroy(s, a).value, p);
    case _ =>
  }

  lemma FaultTouches(s: State, kind: FaultKind, va: nat, env: Env, p: Pg)
    requires Sound(s) && Fault(s, kind, va, env).Ok? && IsPage(Fault(s, kind, va, env).value.0.spaces, p)
    ensures IsPage(s.spaces, p)
    ensures WordOf(Fault(s, kind, va, env).value.0.spaces, p) == PT_EMPTY <==>
      WordOf(s.spaces, p) == PT_EMPTY && Wanted(s, TakeFault(kind, va, env)) != Some(p)
  {
    match Wanted(s, TakeFault(kind, va, env))
    case None => NothingWanted(s, kind, va, env);
    case Some(q) =>
      var s1, f, ok := PageWanted(s, kind, va, env, q);
      ResidentTouches(s, s1, q, f, FirstContents(s, q, env, ok), p);
  }

  /** Making one page resident leaves the others touched or untouched. */
  lemma ResidentTouches(s: State, s1: State, q: Pg, f: nat, page: Page, p: Pg)
    requires MadeResident(s, s1, q, f, page) && IsPage(s1.spaces, p)
    ensures IsPage(s.spaces, p)
    ensures WordOf(s1.spaces, p) == PT_EMPTY <==> WordOf(s.spaces, p) == PT_EMPTY && p != q
  {
    LayoutPages(s.spaces, s1.spaces, p);
    if p != q { assert SeenAlike(s, s1, f, p); }
  }

  // ------------------------------------------------------------------------ whole runs

  /** The segments of a space hold exactly the addresses of the program. */
  lemma ProgramCovered(r: (Region, Region), sp: Space, va: nat)
    requires SameSpace(NewSpace(r.0, r.1), sp)
    ensures Covers(sp.At(Code), va) <==> InRegion(r.0, va)
    ensures Covers(sp.At(Data), va) <==> InRegion(r.1, va)
    ensures Covers(sp.At(Stack), va) <==> OnStack(va)
  {
    var made := NewSpace(r.0, r.1);
    assert SameSeg(made.At(Code), sp.At(Code)) && SameSeg(made.At(Data), sp.At(Data))
      && SameSeg(made.At(Stack), sp.At(Stack));
  }

  /** The fault is for a page exactly when the address is the program's, and the page is the address's. */
  lemma WantedIff(s: State, kind: FaultKind, va: nat, env: Env, r: (Region, Region))
    requires Sound(s) && s.cur.Some? && SameSpace(NewSpace(r.0, r.1), s.spaces[s.cur.value])
    ensures Wanted(s, TakeFault(kind, va, env)).Some? <==> (kind.ReadFault? || kind.WriteFault?) && InProgram(r, va)
    ensures Wanted(s, TakeFault(kind, va, env)).Some? ==>
      WantedAt(s, Wanted(s, TakeFault(kind, va, env)).value, s.cur.value, va)
  {
    var sp := s.spaces[s.cur.value];
    assert SpaceWf(sp);
    FaultTarget(s.spaces, s.cur.value, va);
    FindSegmentIsExact(sp, va);
    ProgramCovered(r, sp, va);
  }

  /** Page `p` of space `a` holds the address. */
  predicate WantedAt(s: State, p: Pg, a: SpaceId, va: nat) {
    p.a == a && IsPage(s.spaces, p) && AddrOf(s.spaces, p) == PageFrame(va) && Covers(SegOf(s.spaces, p), va)
  }

  lemma WantedExact(states: seq<State>, events: seq<Event>, codes: seq<Code>, k: nat)
    requires IsKernelRun(states, events, codes) && k < |events|
    ensures forall a :: Accesses(events, k, a) ==> Wanted(states[k], events[k]).Some?
    ensures Wanted(states[k], events[k]).Some? ==>
      var p := Wanted(states[k], events[k]).value;
      Accesses(events, k, p.a) && WantedAt(states[k], p, p.a, events[k].va)
  {
    KernelRunSound(states, events, codes, k);
    RunningExact(states, events, codes, k);
    var s, e := states[k], events[k];
    if e.TakeFault? && s.cur.Some? {
      LayoutOverRuns(states, events, codes, k, s.cur.value);
      WantedIff(s, e.kind, e.va, e.env, Regions(events, k, s.cur.value).value);
    }
  }

  /** The fault is for page `p` exactly when the program of `p` runs and the address is on `p`. */
  lemma AccessIsWanted(states: seq<State>, events: seq<Event>, codes: seq<Code>, k: nat, p: Pg)
    requires IsKernelRun(states, events, codes) && k < |events| && IsPage(states[k].spaces, p)
    ensures Wanted(states[k], events[k]) == Some(p) <==>
      Accesses(events, k, p.a) && PageFrame(events[k].va) == AddrOf(states[k].spaces, p)
  {
    WantedExact(states, events, codes, k);
    if Accesses(events, k, p.a) && PageFrame(events[k].va) == AddrOf(states[k].spaces, p) {
      KernelRunSound(states, events, codes, k);
      var q := Wanted(states[k], events[k]).value;
      assert SpaceWf(states[k].spaces[p.a]);
      PageAddrInjective(states[k].spaces[p.a], p.sel, p.index, q.sel, q.index);
    }
  }

  lemma UntouchedNext(states: seq<State>, events: seq<Event>, codes: seq<Code>, k: nat, p: Pg)
    requires IsKernelRun(states, events, codes) && k < |events| && IsPage(states[k + 1].spaces, p)
    requires !(events[k].Create? && events[k].a == p.a)
    ensures IsPage(states[k].spaces, p) && AddrOf(states[k].spaces, p) == AddrOf(states[k + 1].spaces, p)
    ensures WordOf(states[k + 1].spaces, p) == PT_EMPTY <==>
      && WordOf(states[k].spaces, p) == PT_EMPTY
      && !(Accesses(events, k, p.a) && PageFrame(events[k].va) == AddrOf(states[k].spaces, p))
  {
    var s, e := states[k], events[k];
    KernelRunSound(states, events, codes, k);
    assert Stepped(s, e, states[k + 1], codes[k]);
    LayoutStep(s, e, p.a);
    assert SameSeg(s.spaces[p.a].At(p.sel), states[k + 1].spaces[p.a].At(p.sel));
    UntouchedStep(s, e, p);
    AccessIsWanted(states, events, codes, k, p);
  }

  /** In every reachable state the pages with an empty word are those no fault was for. */
  lemma {:induction false} UntouchedExact(states: seq<State>, events: seq<Event>, codes: seq<Code>, k: nat, p: Pg)
    requires IsKernelRun(states, events, codes) && k <= |events| && IsPage(states[k].spaces, p)
    ensures WordOf(states[k].spaces, p) == PT_EMPTY <==>
      !Touched(events, k, p.a, AddrOf(states[k].spaces, p))
    decreases k
  {
    if k > 0 {
      var e := events[k - 1];
      if e.Create? && e.a == p.a {
        assert Stepped(states[k - 1], e, states[k], codes[k - 1]);
        NewIsUntouched(e.code, e.data);
      } else {
        UntouchedNext(states, events, codes, k - 1, p);
        UntouchedExact(states, events, codes, k - 1, p);
      }
    }
  }

  /** The segment that has the address. */
  lemma CoveredBy(r: (Region, Region), sp: Space, sel: Sel, va: nat)
    requires SpaceWf(sp) && SameSpace(NewSpace(r.0, r.1), sp) && Covers(sp.At(sel), va)
    ensures sel == Stack <==> OnStack(va)
    ensures sel == Code <==> InRegion(r.0, va)
    ensures sp.At(sel).perm.StackPerm? <==> sel == Stack
    ensures sel != Stack ==> SameSeg(Define(if InRegion(r.0, va) then r.0 else r.1), sp.At(sel))
  {
    FindSegmentIsExact(sp, va);
    ProgramCovered(r, sp, va);
    assert SameSeg(NewSpace(r.0, r.1).At(sel), sp.At(sel));
  }

  lemma LoadServes(r: Region, seg: Seg, index: nat, read: ReadOutcome)
    requires SegWf(seg) && index < seg.NumPages() && SameSeg(Define(r), seg)
    ensures LoadSucceeds(seg, LoadOf(seg, index), read) <==>
      read.Complete? && FileHolds(r.va, r.fileSize, r.offset, r.file, seg.PageAddr(index))
  {
    LoadSucceedsIff(seg, index, read);
  }

  /** The page's contents arrive unless it is new, not of the stack, and its load fails. */
  lemma ArrivesIff(r: (Region, Region), s: State, p: Pg, va: nat, env: Env)
    requires Sound(s) && WantedAt(s, p, p.a, va) && SameSpace(NewSpace(r.0, r.1), s.spaces[p.a])
    ensures Arrives(s.spaces, p, env) <==>
      OnStack(va) || WordOf(s.spaces, p) != PT_EMPTY || (env.read.Complete? && FileServes(r, va))
  {
    var sp := s.spaces[p.a];
    assert SpaceWf(sp);
    CoveredBy(r, sp, p.sel, va);
    if p.sel != Stack { LoadServes(if InRegion(r.0, va) then r.0 else r.1, sp.At(p.sel), p.index, env.read); }
  }

  lemma ArrivesExact(states: seq<State>, events: seq<Event>, codes: seq<Code>, k: nat, p: Pg)
    requires IsKernelRun(states, events, codes) && k < |events| && events[k].TakeFault?
    requires WantedAt(states[k], p, p.a, events[k].va)
    ensures Regions(events, k, p.a).Some?
    ensures
      var (va, env) := (events[k].va, events[k].env);
      Arrives(states[k].spaces, p, env) <==>
        || OnStack(va) || Touched(events, k, p.a, PageFrame(va))
        || (env.read.Complete? && FileServes(Regions(events, k, p.a).value, va))
  {
    KernelRunSound(states, events, codes, k);
    UntouchedExact(states, events, codes, k, p);
    LayoutOverRuns(states, events, codes, k, p.a);
    ArrivesIff(Regions(events, k, p.a).value, states[k], p, events[k].va, events[k].env);
  }

  /** The result of every fault that does not panic follows from the events before it. */
  lemma FaultCodesExact(states: seq<State>, events: seq<Event>, codes: seq<Code>, k: nat)
    requires IsKernelRun(states, events, codes) && k < |events| && events[k].TakeFault?
    ensures codes[k] == FaultCode(events, k)
  {
    KernelRunSound(states, events, codes, k);
    RunningExact(states, events, codes, k);
    WantedExact(states, events, codes, k);
    var s, e := states[k], events[k];
    assert Stepped(s, e, states[k + 1], codes[k]);
    match Wanted(s, e)
    case None => NothingWanted(s, e.kind, e.va, e.env);
    case Some(p) =>
      var s1, f, ok := PageWanted(s, e.kind, e.va, e.env, p);
      ArrivesExact(states, events, codes, k, p);
  }
}
