/** The event counters balance in every reachable state. */
module VmAccounts {
  import opened Common
  import opened Coremap
  import opened PageTable
  import opened Segment
  import opened AddrSpace
  import opened Tlb
  import opened Vm
  import opened VmSteps
  import opened VmRun

  /** The equations between the counters, with `pending` faults past their page but not yet
      counted as TLB misses. */
  ghost predicate Balanced(s: State, pending: nat) {
    && s.stats.swapWrites == s.stats.swapIns + s.swapFrees + |s.slots|
    && s.stats.tlbMiss == s.stats.missFree + s.stats.missReplace
    && s.stats.disk == s.stats.elf + s.stats.swapIns
    && s.stats.reloads + s.stats.zeroed + s.stats.disk == s.stats.tlbMiss + s.failedLoads + pending
  }

  lemma SwapOutBalances(s: State, f: nat, slept: bool, n: nat)
    requires Balanced(s, n) && SwapOut(s, f, slept).Ok?
    ensures Balanced(SwapOut(s, f, slept).value.0, n)
  {
  }

  lemma AllocBalances(s: State, a: SpaceId, va: nat, slept: bool, n: nat)
    requires Balanced(s, n) && AllocUserPage(s, a, va, slept).Ok?
    ensures Balanced(AllocUserPage(s, a, va, slept).value.0, n)
  {
    var (cm1, f) := TakeUserFrame(s.cm, a, va);
    if f == 0 { SwapOutBalances(s.(cm := cm1), cm1.victim, slept, n); }
  }

  lemma FirstTouchBalances(s: State, p: Pg, va: nat, env: Env)
    requires IsPage(s.spaces, p) && Balanced(s, 0) && FirstTouch(s, p, va, env).Ok?
    ensures
      var (s', _, ok) := FirstTouch(s, p, va, env).value;
      Balanced(s', if ok then 1 else 0)
  {
    AllocBalances(s, p.a, PageFrame(va), env.slept, 0);
    var (s1, f) := AllocUserPage(s, p.a, PageFrame(va), env.slept).value;
    var s2 := AddWord(s1, p, f * PAGE_SIZE).value;
    assert Balanced(s2, 0);
    PopulateBalances(s2, p, f, env.read, env.readSlept);
  }

  lemma PopulateBalances(s: State, p: Pg, f: nat, read: ReadOutcome, slept: bool)
    requires IsPage(s.spaces, p) && Balanced(s, 0) && Populate(s, p, f, read, slept).Ok?
    ensures
      var (s', ok) := Populate(s, p, f, read, slept).value;
      Balanced(s', if ok then 1 else 0)
  {
  }

  lemma BringBackBalances(s: State, p: Pg, va: nat, env: Env)
    requires IsPage(s.spaces, p) && Balanced(s, 0) && BringBack(s, p, va, env).Ok?
    ensures Balanced(BringBack(s, p, va, env).value.0, 1)
  {
    AllocBalances(s, p.a, PageFrame(va), env.slept, 0);
    var (s1, f) := AllocUserPage(s, p.a, PageFrame(va), env.slept).value;
    SwapInBalances(s1, f, SwapOffset(WordOf(s1.spaces, p)), env.readSlept);
  }

  lemma MakeResidentBalances(s: State, p: Pg, va: nat, env: Env)
    requires IsPage(s.spaces, p) && Balanced(s, 0) && MakeResident(s, p, va, env).Ok?
    ensures
      var (s', _, ok) := MakeResident(s, p, va, env).value;
      Balanced(s', if ok then 1 else 0)
  {
    var w := WordOf(s.spaces, p);
    if w == PT_EMPTY {
      FirstTouchBalances(s, p, va, env);
    } else if IsSwapped(w) {
      BringBackBalances(s, p, va, env);
    }
  }

  lemma SwapInBalances(s: State, f: nat, offset: nat, slept: bool)
    requires Balanced(s, 0) && SwapIn(s, f, offset, slept).Ok?
    ensures Balanced(SwapIn(s, f, offset, slept).value, 1)
  {
    assert |s.slots - {offset / PAGE_SIZE}| == |s.slots| - 1;
  }

  lemma FaultBalances(s: State, kind: FaultKind, va: nat, env: Env)
    requires Balanced(s, 0) && Fault(s, kind, va, env).Ok?
    ensures Balanced(Fault(s, kind, va, env).value.0, 0)
  {
    if (kind.ReadFault? || kind.WriteFault?) && s.cur.Some? {
      var target := FaultPage(s.spaces, s.cur.value, va).value;
      if target.Some? { MakeResidentBalances(s, target.value, va, env); }
    }
  }

  lemma {:induction false} ClearBalances(s: State, words: seq<Word>, i: nat)
    requires i <= |words| && Balanced(s, 0) && ClearFrom(s, words, i).Ok?
    ensures Balanced(ClearFrom(s, words, i).value, 0)
    decreases |words| - i
  {
    if i < |words| {
      var s1 := ClearWord(s, words[i]).value;
      if IsSwapped(words[i]) {
        assert |s.slots - {SwapOffset(words[i]) / PAGE_SIZE}| == |s.slots| - 1;
      }
      ClearBalances(s1, words, i + 1);
    }
  }

  lemma StepBalances(s: State, e: Event)
    requires Balanced(s, 0) && Step(s, e).Ok?
    ensures Balanced(Step(s, e).value.0, 0)
  {
    match e
    case TakeFault(kind, va, env) => FaultBalances(s, kind, va, env);
    case Exit(a) =>
      var sp := s.spaces[a];
      var s1 := ClearFrom(s, sp.code.table, 0).value;
      var s2 := ClearFrom(s1, sp.data.table, 0).value;
      ClearBalances(s, sp.code.table, 0);
      ClearBalances(s1, sp.data.table, 0);
      ClearBalances(s2, sp.stack.table, 0);
    case _ =>
  }

  // --------------------------------------------------------------------- failed loads

  /** The load of some page from its executable fails in this event. */
  ghost predicate LoadFails(s: State, e: Event, code: Code) {
    exists p :: FailedLoad(s, e, code, p)
  }

  /** The number of failed loads among the first `k` events. */
  ghost function Failures(states: seq<State>, events: seq<Event>, codes: seq<Code>, k: nat): nat
    requires k <= |events| < |states| && |codes| == |events|
    decreases k
  {
    if k == 0 then 0
    else
      Failures(states, events, codes, k - 1) + if LoadFails(states[k - 1], events[k - 1], codes[k - 1]) then 1 else 0
  }

  lemma AllocCounts(s: State, a: SpaceId, va: nat, slept: bool)
    requires AllocUserPage(s, a, va, slept).Ok?
    ensures AllocUserPage(s, a, va, slept).value.0.failedLoads == s.failedLoads
  {
  }

  lemma TouchCounts(s: State, p: Pg, va: nat, env: Env)
    requires IsPage(s.spaces, p) && FirstTouch(s, p, va, env).Ok?
    ensures
      var (s', _, ok) := FirstTouch(s, p, va, env).value;
      s'.failedLoads == s.failedLoads + if ok then 0 else 1
  {
    AllocCounts(s, p.a, PageFrame(va), env.slept);
  }

  lemma BackCounts(s: State, p: Pg, va: nat, env: Env)
    requires IsPage(s.spaces, p) && BringBack(s, p, va, env).Ok?
    ensures var (s', _, ok) := BringBack(s, p, va, env).value; ok && s'.failedLoads == s.failedLoads
  {
    AllocCounts(s, p.a, PageFrame(va), env.slept);
  }

  lemma ResidentCounts(s: State, p: Pg, va: nat, env: Env)
    requires IsPage(s.spaces, p) && MakeResident(s, p, va, env).Ok?
    ensures
      var (s', _, ok) := MakeResident(s, p, va, env).value;
      s'.failedLoads == s.failedLoads + if ok then 0 else 1
  {
    var w := WordOf(s.spaces, p);
    if w == PT_EMPTY {
      TouchCounts(s, p, va, env);
    } else if IsSwapped(w) {
      BackCounts(s, p, va, env);
    }
  }

  lemma FaultCounts(s: State, kind: FaultKind, va: nat, env: Env)
    requires Sound(s) && Fault(s, kind, va, env).Ok?
    ensures
      var (s', code) := Fault(s, kind, va, env).value;
      s'.failedLoads == s.failedLoads + if LoadFails(s, TakeFault(kind, va, env), code) then 1 else 0
  {
    var (s', code) := Fault(s, kind, va, env).value;
    if (kind.ReadFault? || kind.WriteFault?) && s.cur.Some? {
      assert SpaceWf(s.spaces[s.cur.value]);
      FaultTarget(s.spaces, s.cur.value, va);
      var target := FaultPage(s.spaces, s.cur.value, va).value;
      if target.Some? {
        FaultUnfolds(s, kind, va, env, target.value);
        ResidentCounts(s, target.value, va, env);
        assert FailedLoad(s, TakeFault(kind, va, env), code, target.value) <==> code.Efault?;
      }
    }
  }

  lemma {:induction false} ClearCounts(s: State, words: seq<Word>, i: nat)
    requires i <= |words| && ClearFrom(s, words, i).Ok?
    ensures ClearFrom(s, words, i).value.failedLoads == s.failedLoads
    decreases |words| - i
  {
    if i < |words| { ClearCounts(ClearWord(s, words[i]).value, words, i + 1); }
  }

  lemma StepCounts(s: State, e: Event)
    requires Sound(s) && Step(s, e).Ok?
    ensures
      var (s', code) := Step(s, e).value;
      s'.failedLoads == s.failedLoads + if LoadFails(s, e, code) then 1 else 0
  {
    match e
    case TakeFault(kind, va, env) => FaultCounts(s, kind, va, env);
    case Exit(a) =>
      var sp := s.spaces[a];
      var s1 := ClearFrom(s, sp.code.table, 0).value;
      var s2 := ClearFrom(s1, sp.data.table, 0).value;
      ClearCounts(s, sp.code.table, 0);
      ClearCounts(s1, sp.data.table, 0);
      ClearCounts(s2, sp.stack.table, 0);
    case _ =>
  }

  lemma {:induction false} FailuresCounted(states: seq<State>, events: seq<Event>, codes: seq<Code>, k: nat)
    requires IsKernelRun(states, events, codes) && k <= |events|
    ensures states[k].failedLoads == Failures(states, events, codes, k)
    decreases k
  {
    if k > 0 {
      FailuresCounted(states, events, codes, k - 1);
      KernelRunSound(states, events, codes, k - 1);
      StepCounts(states[k - 1], events[k - 1]);
      assert Stepped(states[k - 1], events[k - 1], states[k], codes[k - 1]);
    }
  }

  lemma {:induction false} FailuresPositive(states: seq<State>, events: seq<Event>, codes: seq<Code>, k: nat)
    requires k <= |events| < |states| && |codes| == |events|
    ensures Failures(states, events, codes, k) > 0 <==>
      exists j: nat {:trigger events[j]} :: j < k && LoadFails(states[j], events[j], codes[j])
    decreases k
  {
    if k > 0 {
      FailuresPositive(states, events, codes, k - 1);
      assert events[k - 1] == events[k - 1];
    }
  }

  // ------------------------------------------------------------------------- whole runs

  lemma {:induction false} RunBalances(states: seq<State>, events: seq<Event>, codes: seq<Code>, k: nat)
    requires IsKernelRun(states, events, codes) && k <= |events|
    ensures Balanced(states[k], 0)
    decreases k
  {
    if k > 0 {
      RunBalances(states, events, codes, k - 1);
      StepBalances(states[k - 1], events[k - 1]);
      assert Stepped(states[k - 1], events[k - 1], states[k], codes[k - 1]);
    }
  }

  /** In every reachable state: swap-file writes are swap-ins plus slots freed plus slots in use; TLB
      misses are those with a free entry plus those with a replaced one; disk faults are those from
      the executable plus those from the swap file; and reloads, zeroed pages and disk faults together
      exceed TLB misses by exactly the number of failed loads. */
  lemma CountersBalance(states: seq<State>, events: seq<Event>, codes: seq<Code>, k: nat)
    requires IsKernelRun(states, events, codes) && k <= |events|
    ensures
      var (c, s) := (states[k].stats, states[k]);
      && c.swapWrites == c.swapIns + s.swapFrees + |s.slots|
      && c.tlbMiss == c.missFree + c.missReplace
      && c.disk == c.elf + c.swapIns
      && c.reloads + c.zeroed + c.disk == c.tlbMiss + Failures(states, events, codes, k)
  {
    RunBalances(states, events, codes, k);
    FailuresCounted(states, events, codes, k);
  }

  /** The warning of `vmstats_show` that reloads, zeroed pages and disk faults do not add up to the
      TLB misses appears exactly when some load from an executable has failed. */
  lemma MissWarningIff(states: seq<State>, events: seq<Event>, codes: seq<Code>, k: nat)
    requires IsKernelRun(states, events, codes) && k <= |events|
    ensures
      var c := states[k].stats;
      c.tlbMiss != c.reloads + c.zeroed + c.disk <==>
        exists j: nat {:trigger events[j]} :: j < k && LoadFails(states[j], events[j], codes[j])
  {
    CountersBalance(states, events, codes, k);
    FailuresPositive(states, events, codes, k);
  }
}
