/** The FIFO list over runs of the whole memory manager: what keeps it, and which exits break it. */
module VmQueue {
  import opened Common
  import opened Coremap
  import opened CoremapBlocks
  import opened CoremapQueue
  import opened PageTable
  import opened Segment
  import opened AddrSpace
  import opened Tlb
  import opened Vm
  import opened VmOwn
  import opened VmView
  import opened VmFault
  import opened VmCoherence
  import opened VmDestroy
  import opened VmSteps
  import opened VmRun
  import opened VmTotal

  /** The links hold some list of exactly the user frames. */
  ghost predicate HasQueue(cm: Cm) {
    exists q :: Queue(cm, q)
  }

  // -------------------------------------------------------------------- the last frame

  lemma FreeKeepsLast(cm: Cm, f: nat)
    requires LastOk(cm) && FreeUser(cm, f).Ok?
    ensures LastOk(FreeUser(cm, f).value)
  {
  }

  lemma {:induction false} ClearKeepsLast(s: State, words: seq<Word>, i: nat)
    requires LastOk(s.cm) && i <= |words| && ClearFrom(s, words, i).Ok?
    ensures LastOk(ClearFrom(s, words, i).value.cm)
    decreases |words| - i
  {
    if i < |words| {
      var w := words[i];
      if !IsSwapped(w) && w != PT_EMPTY { FreeKeepsLast(s.cm, w / PAGE_SIZE); }
      ClearKeepsLast(ClearWord(s, w).value, words, i + 1);
    }
  }

  lemma AllocKeepsLast(s: State, a: SpaceId, va: nat, slept: bool)
    requires CmInv(s.cm) && AllocUserPage(s, a, va, slept).Ok?
    ensures LastOk(AllocUserPage(s, a, va, slept).value.0.cm)
  {
    TakeUserFrameBlocks(s.cm, a, va);
  }

  lemma FaultKeepsLast(s: State, kind: FaultKind, va: nat, env: Env)
    requires Sound(s) && LastOk(s.cm) && Fault(s, kind, va, env).Ok?
    ensures LastOk(Fault(s, kind, va, env).value.0.cm)
  {
    if (kind.ReadFault? || kind.WriteFault?) && s.cur.Some? {
      assert SpaceWf(s.spaces[s.cur.value]);
      FaultTarget(s.spaces, s.cur.value, va);
      var target := FaultPage(s.spaces, s.cur.value, va).value;
      if target.Some? {
        var p := target.value;
        FaultUnfolds(s, kind, va, env, p);
        ResidentCoremap(s, p, va, env);
        if !IsResident(WordOf(s.spaces, p)) { AllocKeepsLast(s, p.a, PageFrame(va), env.slept); }
      }
    }
  }

  lemma DestroyKeepsLast(s: State, a: SpaceId)
    requires LastOk(s.cm) && a in s.spaces && Destroy(s, a).Ok?
    ensures LastOk(Destroy(s, a).value.cm)
  {
    var sp := s.spaces[a];
    var s1 := ClearFrom(s, sp.code.table, 0).value;
    var s2 := ClearFrom(s1, sp.data.table, 0).value;
    ClearKeepsLast(s, sp.code.table, 0);
    ClearKeepsLast(s1, sp.data.table, 0);
    ClearKeepsLast(s2, sp.stack.table, 0);
  }

  lemma StepKeepsLast(s: State, e: Event)
    requires Sound(s) && LastOk(s.cm) && Callable(s, e) && Vm.Step(s, e).Ok?
    ensures LastOk(Vm.Step(s, e).value.0.cm)
  {
    match e
    case TakeFault(kind, va, env) => FaultKeepsLast(s, kind, va, env);
    case Exit(a) => DestroyKeepsLast(s, a);
    case AllocKpages(n) => KernelAllocLinks(s.cm, n);
    case FreeKpages(f) =>
      FreeKernelFreesItsBlock(s.cm, f);
    case _ =>
  }

  lemma {:induction false} LastOkOverRuns(states: seq<State>, events: seq<Event>, codes: seq<Code>, k: nat)
    requires IsKernelRun(states, events, codes) && k <= |events|
    ensures LastOk(states[k].cm)
    decreases k
  {
    if k > 0 {
      LastOkOverRuns(states, events, codes, k - 1);
      KernelRunSound(states, events, codes, k - 1);
      StepKeepsLast(states[k - 1], events[k - 1]);
    }
  }

  /** In every state of every run, intact list or not, a fault panics exactly when it must replace a page
      and there is no victim with a successor or no free swap slot. */
  lemma FaultPanicsOverRuns(states: seq<State>, events: seq<Event>, codes: seq<Code>, k: nat,
                            kind: FaultKind, va: nat, env: Env)
    requires IsKernelRun(states, events, codes) && k <= |events|
    ensures
      var s := states[k];
      Fault(s, kind, va, env).Panic? <==> MustReplace(s, kind, va) && (!CanRotate(s.cm) || SwapFull(s.slots))
  {
    KernelRunSound(states, events, codes, k);
    LastOkOverRuns(states, events, codes, k);
    FaultPanicsIff(states[k], kind, va, env);
  }

  // ---------------------------------------------------------------------------- exits

  /** Freeing the frame goes by the book: it is not the victim, or the victim's back link is clear. */
  predicate FreeSafe(cm: Cm, f: nat) {
    f < |cm.entries| && (f != cm.victim || cm.entries[f].prev == cm.Invalid())
  }

  /** With a list in place, a free of a user frame passes its assertions and leaves a list exactly when
      it is safe. */
  lemma FreeIntactIff(cm: Cm, f: nat)
    requires CmInv(cm) && HasQueue(cm) && UserFrame(cm.entries, f)
    ensures FreeSafe(cm, f) <==> FreeUser(cm, f).Ok? && HasQueue(FreeUser(cm, f).value)
  {
    var q :| Queue(cm, q);
    var k :| 0 <= k < |q| && q[k] == f;
    FreeKeepsQueueIff(cm, q, k);
    if FreeSafe(cm, f) {
      assert k == 0 ==> HeadClean(cm, q);
      assert Queue(FreeUser(cm, f).value, Without(q, k));
    } else {
      assert f == q[0];
    }
  }

  /** The victim is a page of space `a` and its back link, which a replacement leaves as it was, is not
      clear. */
  predicate ExitBreaks(cm: Cm, a: SpaceId) {
    && cm.victim < |cm.entries| && cm.entries[cm.victim].prev != cm.Invalid()
    && cm.entries[cm.victim].space == Some(a)
  }

  predicate Older(age: seq<nat>, f: nat, g: nat) {
    f < |age| && g < |age| && age[f] < age[g]
  }

  /** The frames in increasing order of what `age` says of them. */
  ghost predicate Ordered(q: seq<nat>, age: seq<nat>) {
    && (forall i :: 0 <= i < |q| ==> q[i] < |age|)
    && forall i, j :: 0 <= i < j < |q| ==> Older(age, q[i], q[j])
  }

  lemma OrderedWithout(q: seq<nat>, k: nat, age: seq<nat>)
    requires k < |q| && Ordered(q, age)
    ensures Ordered(Without(q, k), age)
  {
    var r := Without(q, k);
    forall i, j | 0 <= i < j < |r|
      ensures Older(age, r[i], r[j])
    {
      assert Older(age, q[if i < k then i else i + 1], q[if j < k then j else j + 1]);
    }
  }

  lemma OrderedTail(q: seq<nat>, age: seq<nat>)
    requires q != [] && Ordered(q, age)
    ensures Ordered(q[1..], age)
  {
    assert q[1..] == Without(q, 0);
    OrderedWithout(q, 0, age);
  }

  /** A list `q` that an exit of `a` has brought to `q'`: the order is kept, and so is whether the exit breaks
      it. */
  ghost predicate Thinned(cm: Cm, q: seq<nat>, a: SpaceId, cm': Cm, q': seq<nat>, age: seq<nat>) {
    Queue(cm', q') && (Ordered(q, age) ==> Ordered(q', age)) && (ExitBreaks(cm', a) <==> ExitBreaks(cm, a))
  }

  lemma ThinnedTwice(cm: Cm, q: seq<nat>, a: SpaceId, cm1: Cm, q1: seq<nat>, cm2: Cm, q2: seq<nat>, age: seq<nat>)
    requires Thinned(cm, q, a, cm1, q1, age) && Thinned(cm1, q1, a, cm2, q2, age)
    ensures Thinned(cm, q, a, cm2, q2, age)
  {
  }

  /** One free of an exit: it is safe unless the exit breaks the list, and as long as the list is intact
      nothing changes about whether the exit breaks it. */
  lemma FreeOfExit(cm: Cm, q: seq<nat>, a: SpaceId, f: nat, age: seq<nat>) returns (q': seq<nat>)
    requires CmInv(cm) && Queue(cm, q) && UserFrame(cm.entries, f) && cm.entries[f].space == Some(a)
    ensures !ExitBreaks(cm, a) ==> FreeUser(cm, f).Ok? && HasQueue(FreeUser(cm, f).value)
    ensures FreeUser(cm, f).Ok? && HasQueue(FreeUser(cm, f).value) ==>
      Thinned(cm, q, a, FreeUser(cm, f).value, q', age)
  {
    FreeIntactIff(cm, f);
    var k :| 0 <= k < |q| && q[k] == f;
    q' := Without(q, k);
    if Ordered(q, age) { OrderedWithout(q, k, age); }
    if FreeSafe(cm, f) {
      FreeKeepsQueueIff(cm, q, k);
      FreeUserBlocks(cm, f);
      var cm' := FreeUser(cm, f).value;
      assert k > 0 ==> q'[0] == q[0];
      assert k > 0 ==> SameMeta(cm.entries[q[0]], cm'.entries[q[0]]);
    }
  }

  /** Clearing the words from `i` on passes every assertion and leaves a list after each of them. */
  ghost predicate ClearIntact(s: State, words: seq<Word>, i: nat)
    requires i <= |words|
    decreases |words| - i
  {
    if i == |words| then true
    else
      var r := ClearWord(s, words[i]);
      r.Ok? && HasQueue(r.value.cm) && ClearIntact(r.value, words, i + 1)
  }

  /** The state after one word of a page table is cleared, when the coremap lets it. */
  lemma ClearOne(s: State, spaces: Spaces, p: Pg)
    requires ClearInv(s, spaces) && IsPage(spaces, p)
    ensures
      var w := WordOf(spaces, p);
      if IsResident(w) then
        && UserFrame(s.cm.entries, w / PAGE_SIZE)
        && (ClearWord(s, w).Ok? <==> FreeUser(s.cm, w / PAGE_SIZE).Ok?)
        && (ClearWord(s, w).Ok? ==> ClearWord(s, w).value.cm == FreeUser(s.cm, w / PAGE_SIZE).value)
      else ClearWord(s, w).Ok? && ClearWord(s, w).value.cm == s.cm
  {
    var w := WordOf(spaces, p);
    assert Backed(spaces, s.cm.entries, s.slots, p);
    if IsSwapped(w) {
      assert SwapOffset(w) / PAGE_SIZE == w / PAGE_SIZE && SwapOffset(w) % PAGE_SIZE == 0;
    }
  }

  /** Clearing one word of space `a`. */
  lemma ClearOneOfExit(s: State, spaces: Spaces, p: Pg, q: seq<nat>, age: seq<nat>) returns (q': seq<nat>)
    requires ClearInv(s, spaces) && IsPage(spaces, p) && Queue(s.cm, q)
    ensures
      var r := ClearWord(s, WordOf(spaces, p));
      && (!ExitBreaks(s.cm, p.a) ==> r.Ok? && HasQueue(r.value.cm))
      && (r.Ok? && HasQueue(r.value.cm) ==>
            Thinned(s.cm, q, p.a, r.value.cm, q', age) && ClearInv(r.value, SetWord(spaces, p, PT_EMPTY)))
  {
    var w := WordOf(spaces, p);
    q' := q;
    ClearOne(s, spaces, p);
    if IsResident(w) {
      assert Backed(spaces, s.cm.entries, s.slots, p);
      q' := FreeOfExit(s.cm, q, p.a, w / PAGE_SIZE, age);
    }
    if ClearWord(s, w).Ok? { ClearWordKeeps(s, spaces, p); }
  }

  /** What clearing the words from `i` on does to the list. */
  ghost predicate ClearedList(s: State, words: seq<Word>, i: nat, a: SpaceId, q: seq<nat>, q': seq<nat>, age: seq<nat>)
    requires i <= |words|
  {
    && (!ExitBreaks(s.cm, a) ==> ClearIntact(s, words, i))
    && (ClearIntact(s, words, i) ==>
          ClearFrom(s, words, i).Ok? && Thinned(s.cm, q, a, ClearFrom(s, words, i).value.cm, q', age))
  }

  lemma ClearedMore(s: State, s1: State, words: seq<Word>, i: nat, a: SpaceId, q: seq<nat>, q1: seq<nat>, q': seq<nat>,
                    age: seq<nat>)
    requires i < |words| && ClearWord(s, words[i]) == Ok(s1) && HasQueue(s1.cm)
    requires Thinned(s.cm, q, a, s1.cm, q1, age) && ClearedList(s1, words, i + 1, a, q1, q', age)
    ensures ClearedList(s, words, i, a, q, q', age)
  {
    if ClearIntact(s1, words, i + 1) {
      ThinnedTwice(s.cm, q, a, s1.cm, q1, ClearFrom(s1, words, i + 1).value.cm, q', age);
    }
  }

  /** Clearing the words from `i` on, which are those of a table of space `a`. */
  lemma {:induction false} ClearOfExit(s: State, spaces: Spaces, a: SpaceId, sel: Sel, words: seq<Word>, i: nat,
                                       q: seq<nat>, age: seq<nat>) returns (q': seq<nat>)
    requires a in spaces && i <= |words| && Queue(s.cm, q)
    requires ClearInv(s, ClearedTo(spaces, a, sel, words, i))
    ensures ClearedList(s, words, i, a, q, q', age)
    decreases |words| - i
  {
    q' := q;
    if i < |words| {
      ClearOneMore(spaces, a, sel, words, i);
      var q1 := ClearOneOfExit(s, ClearedTo(spaces, a, sel, words, i), Pg(a, sel, i), q, age);
      var r := ClearWord(s, words[i]);
      if r.Ok? && HasQueue(r.value.cm) {
        q' := ClearOfExit(r.value, spaces, a, sel, words, i + 1, q1, age);
        ClearedMore(s, r.value, words, i, a, q, q1, q', age);
      }
    }
  }

  lemma TableOfExit(s: State, spaces: Spaces, a: SpaceId, sel: Sel, q: seq<nat>, age: seq<nat>) returns (q': seq<nat>)
    requires a in spaces && ClearInv(s, spaces) && Queue(s.cm, q)
    ensures
      var words := spaces[a].At(sel).table;
      && ClearedList(s, words, 0, a, q, q', age)
      && (ClearIntact(s, words, 0) ==>
            ClearInv(ClearFrom(s, words, 0).value, ClearedTo(spaces, a, sel, words, |words|)))
  {
    var words := spaces[a].At(sel).table;
    NothingCleared(spaces, a, sel);
    q' := ClearOfExit(s, spaces, a, sel, words, 0, q, age);
    if ClearIntact(s, words, 0) { ClearTableKeeps(s, spaces, a, sel); }
  }

  /** Every free of an exit passes its assertions and leaves a list. */
  ghost predicate ExitIntact(s: State, a: SpaceId)
    requires a in s.spaces
  {
    var sp := s.spaces[a];
    && ClearIntact(s, sp.code.table, 0)
    && match ClearFrom(s, sp.code.table, 0)
       case Panic => false
       case Ok(s1) =>
         && ClearIntact(s1, sp.data.table, 0)
         && match ClearFrom(s1, sp.data.table, 0)
            case Panic => false
            case Ok(s2) => ClearIntact(s2, sp.stack.table, 0)
  }

  /** The list an exit leaves, its frames in the order they had. */
  lemma ExitList(s: State, a: SpaceId, q: seq<nat>, age: seq<nat>) returns (q': seq<nat>)
    requires Core(s, |s.cm.entries|) && a in s.spaces && Queue(s.cm, q)
    ensures !ExitBreaks(s.cm, a) ==> ExitIntact(s, a)
    ensures ExitIntact(s, a) ==> Destroy(s, a).Ok? && Thinned(s.cm, q, a, Destroy(s, a).value.cm, q', age)
  {
    var sp := s.spaces[a];
    var spaces1 := ClearedTo(s.spaces, a, Code, sp.code.table, |sp.code.table|);
    var spaces2 := ClearedTo(spaces1, a, Data, sp.data.table, |sp.data.table|);
    assert spaces1[a].At(Data) == sp.data && spaces2[a].At(Stack) == sp.stack;
    q' := TableOfExit(s, s.spaces, a, Code, q, age);
    if ClearIntact(s, sp.code.table, 0) {
      var s1 := ClearFrom(s, sp.code.table, 0).value;
      q' := TableOfExit(s1, spaces1, a, Data, q', age);
      if ClearIntact(s1, sp.data.table, 0) {
        var s2 := ClearFrom(s1, sp.data.table, 0).value;
        q' := TableOfExit(s2, spaces2, a, Stack, q', age);
        if ClearIntact(s2, sp.stack.table, 0) {
          DestroyFrom(s, s1, s2, ClearFrom(s2, sp.stack.table, 0).value, a);
        }
      }
    }
  }

  /** After an exit no frame belongs to the space, so no victim does. */
  lemma ExitLeavesNoVictim(s: State, a: SpaceId, q: seq<nat>)
    requires Core(s, |s.cm.entries|) && a in s.spaces && Destroy(s, a).Ok? && Queue(Destroy(s, a).value.cm, q)
    ensures !ExitBreaks(Destroy(s, a).value.cm, a)
  {
    DestroyKeeps(s, a);
    var s' := Destroy(s, a).value;
    if ExitBreaks(s'.cm, a) {
      assert s'.cm.victim in q;
      FrameOwnership(s'.spaces, s'.cm.entries, s'.slots, s'.cm.victim);
    }
  }

  /** An exit passes all its assertions with a list in place throughout exactly when the victim is not a page
      of the space with a stale back link. */
  lemma ExitIntactIff(s: State, a: SpaceId)
    requires Core(s, |s.cm.entries|) && a in s.spaces && HasQueue(s.cm)
    ensures !ExitBreaks(s.cm, a) <==> ExitIntact(s, a)
    ensures !ExitBreaks(s.cm, a) ==> Destroy(s, a).Ok? && HasQueue(Destroy(s, a).value.cm)
  {
    var q :| Queue(s.cm, q);
    var q' := ExitList(s, a, q, []);
    if ExitIntact(s, a) { ExitLeavesNoVictim(s, a, q'); }
  }

  // ----------------------------------------------------------------------------- runs

  /** A frame for a user page joins the list at its end, coming from its front if a page is replaced. */
  lemma AllocList(s: State, a: SpaceId, va: nat, slept: bool, q: seq<nat>) returns (rest: seq<nat>)
    requires Core(s, |s.cm.entries|) && Queue(s.cm, q) && AllocUserPage(s, a, va, slept).Ok?
    ensures rest == q || (q != [] && rest == q[1..])
    ensures var (s1, f) := AllocUserPage(s, a, va, slept).value; Queue(s1.cm, rest + [f])
  {
    TakeUserFrameBlocks(s.cm, a, va);
    if NeedsVictim(s.cm, a, va) {
      EvictRotates(s.cm, q, a, va);
      EvictNeeds(s, a, va, slept);
      assert s.(cm := TakeUserFrame(s.cm, a, va).0) == s;
      EvictCoremap(s, a, va, slept);
      rest := q[1..];
    } else {
      EnqueueAppends(s.cm, q, a, va);
      rest := q;
    }
  }

  lemma EvictCoremap(s: State, a: SpaceId, va: nat, slept: bool)
    requires Evict(s, a, va, slept).Ok?
    ensures Retarget(s.cm, a, va) == Ok(Evict(s, a, va, slept).value.0.cm)
    ensures Evict(s, a, va, slept).value.1 == s.cm.victim
  {
  }
}
