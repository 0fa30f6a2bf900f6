/** The sleep lock built on a binary semaphore, and the condition variable built on the lock, as one
    state machine whose threads interleave action by action. */
module LockCv {
  import opened Common
  import S = Semaphore

  type Thread = S.Thread

  datatype Op = Acquire | Release | Wait | Signal | Broadcast

  /** Where a thread is. `Out` and `Held` are outside all lock code; the flag of `Check` says from which
      of the two the call came, the flag of the release states whether they are part of `cv_wait`.
      `InP` and `InV` are inside the semaphore, whose own record says where. */
  datatype Pc =
    | Out | Held
    | Check(op: Op, held: bool)
    | InP | Took | OwnerNext | OwnerSet
    | RelEnter(wait: bool) | RelClear(wait: bool) | InV(wait: bool) | RelLeave(wait: bool)
    | WaitEnter | WaitCheck | WaitSleep | WaitQueued | WaitAsleep | WaitWoken | WaitLeave
    | SigEnter(all: bool) | SigWake(all: bool) | SigLeave

  /** `lk` and `cvLock` are the spinlocks of the lock and of the condition variable. */
  datatype Sys = Sys(sem: S.Sem, lk: Option<Thread>, owner: Option<Thread>,
                     cvLock: Option<Thread>, cv: seq<Thread>, pc: seq<Pc>)

  datatype Outcome = Blocked | Crash | Went(next: Sys)

  function At(s: Sys, t: Thread, p: Pc): Sys
    requires t < |s.pc|
  {
    s.(pc := s.pc[t := p])
  }

  /** `wchan_wakeone` on the condition variable's channel. */
  function WakeOne(s: Sys): Sys {
    if s.cv == [] then s
    else if s.cv[0] < |s.pc| then s.(cv := s.cv[1..], pc := s.pc[s.cv[0] := WaitWoken])
    else s.(cv := s.cv[1..])
  }

  /** Where a call goes once `lock_do_i_hold` has been consulted. */
  function Start(s: Sys, t: Thread, op: Op): Outcome
    requires t < |s.pc| == |s.sem.pc|
  {
    match op
    case Acquire =>
      if s.owner == Some(t) then Crash
      else Went(At(s, t, InP).(sem := S.At(s.sem, t, S.PEnter)))
    case _ =>
      if s.owner != Some(t) then Crash
      else Went(At(s, t, match op
                         case Release => RelEnter(false)
                         case Wait => WaitEnter
                         case _ => SigEnter(op.Broadcast?)))
  }

  /** An action inside the semaphore; when it returns the thread goes on. */
  function SemAct(s: Sys, t: Thread, inside: Pc, after: Pc): Outcome
    requires t < |s.pc| == |s.sem.pc|
  {
    match S.Go(s.sem, t)
    case Blocked => Blocked
    case Crash => Crash
    case Went(sem') => Went(At(s, t, if t < |sem'.pc| && sem'.pc[t].Idle? then after else inside).(sem := sem'))
  }

  /** The next action of a thread. */
  function Go(s: Sys, t: Thread): Outcome
    requires t < |s.pc| == |s.sem.pc|
  {
    match s.pc[t]
    case Out => Blocked
    case Held => Blocked
    case Check(op, _) => if s.lk.None? then Start(s, t, op) else Blocked
    case InP => SemAct(s, t, InP, Took)
    case Took => if s.lk.None? then Went(At(s, t, OwnerNext).(lk := Some(t))) else Blocked
    case OwnerNext => if s.owner.Some? then Crash else Went(At(s, t, OwnerSet).(owner := Some(t)))
    case OwnerSet => Went(At(s, t, Held).(lk := None))
    case RelEnter(w) => if s.lk.None? then Went(At(s, t, RelClear(w)).(lk := Some(t))) else Blocked
    case RelClear(w) => Went(At(s, t, InV(w)).(owner := None, sem := S.At(s.sem, t, S.VEnter)))
    case InV(w) => SemAct(s, t, InV(w), RelLeave(w))
    case RelLeave(w) => Went(At(s, t, if w then WaitSleep else Out).(lk := None))
    case WaitEnter => if s.cvLock.None? then Went(At(s, t, WaitCheck).(cvLock := Some(t))) else Blocked
    case WaitCheck =>
      if s.lk.Some? then Blocked
      else if s.owner != Some(t) then Crash
      else Went(At(s, t, RelEnter(true)))
    case WaitSleep => Went(At(s, t, WaitQueued).(cv := s.cv + [t]))
    case WaitQueued => Went(At(s, t, WaitAsleep).(cvLock := None))
    case WaitAsleep => Blocked
    case WaitWoken => if s.cvLock.None? then Went(At(s, t, WaitLeave).(cvLock := Some(t))) else Blocked
    case WaitLeave => Went(At(s, t, Check(Acquire, false)).(cvLock := None))
    case SigEnter(all) => if s.cvLock.None? then Went(At(s, t, SigWake(all)).(cvLock := Some(t))) else Blocked
    case SigWake(all) => Went(At(WakeOne(s), t, if all && s.cv != [] then SigWake(all) else SigLeave))
    case SigLeave => Went(At(s, t, Held).(cvLock := None))
  }

  // -------------------------------------------------------------------- invariant

  predicate HasLk(p: Pc) {
    p.OwnerNext? || p.OwnerSet? || p.RelClear? || p.InV? || p.RelLeave?
  }

  predicate HasCvLock(p: Pc) {
    || p.WaitCheck? || p.WaitSleep? || p.WaitQueued? || p.WaitLeave? || p.SigWake? || p.SigLeave?
    || ((p.RelEnter? || p.RelClear? || p.InV? || p.RelLeave?) && p.wait)
  }

  /** The thread is recorded as the owner. */
  predicate Owns(p: Pc) {
    || p.Held? || p.OwnerSet? || p.RelEnter? || p.RelClear? || p.WaitEnter? || p.WaitCheck?
    || p.SigEnter? || p.SigWake? || p.SigLeave? || (p.Check? && p.held)
  }

  /** The thread has taken the semaphore's unit and not put it back. */
  predicate Token(p: Pc, q: S.Pc) {
    || Owns(p) || p.Took? || p.OwnerNext?
    || (p.InP? && q.PLeave?)
    || (p.InV? && (q.VEnter? || q.VAdd?))
  }

  predicate OnCv(p: Pc) {
    p.WaitQueued? || p.WaitAsleep?
  }

  /** A thread is inside the semaphore exactly when its lock code is at a call of it. */
  predicate Matches(p: Pc, q: S.Pc) {
    if p.InP? then !q.Idle? && !q.VEnter? && !q.VAdd? && !q.VWake? && !q.VLeave?
    else if p.InV? then q.VEnter? || q.VAdd? || q.VWake? || q.VLeave?
    else q.Idle?
  }

  ghost predicate Aligned(s: Sys) {
    && |s.pc| == |s.sem.pc|
    && forall t: Thread :: t < |s.pc| ==> Matches(s.pc[t], s.sem.pc[t])
  }

  /** Each spinlock, and the lock itself, is recorded as held by the one thread that is where its
      holder would be. */
  ghost predicate LkOk(s: Sys) {
    && (s.lk.Some? ==> s.lk.value < |s.pc|)
    && forall t: Thread :: t < |s.pc| ==> (HasLk(s.pc[t]) <==> s.lk == Some(t))
  }

  ghost predicate CvLockOk(s: Sys) {
    && (s.cvLock.Some? ==> s.cvLock.value < |s.pc|)
    && forall t: Thread :: t < |s.pc| ==> (HasCvLock(s.pc[t]) <==> s.cvLock == Some(t))
  }

  ghost predicate OwnerOk(s: Sys) {
    && (s.owner.Some? ==> s.owner.value < |s.pc|)
    && forall t: Thread :: t < |s.pc| ==> (Owns(s.pc[t]) <==> s.owner == Some(t))
  }

  ghost predicate TokenOf(s: Sys, t: Thread) {
    t < |s.pc| == |s.sem.pc| && Token(s.pc[t], s.sem.pc[t])
  }

  /** The semaphore's count is one and nobody has the token, or zero and exactly one thread has it. */
  ghost predicate OneToken(s: Sys) {
    && s.sem.count <= 1
    && (forall t, u :: TokenOf(s, t) && TokenOf(s, u) ==> t == u)
    && (s.sem.count == 0 <==> exists t :: TokenOf(s, t))
  }

  ghost predicate CvOk(s: Sys) {
    && Distinct(s.cv)
    && (forall t :: t in s.cv ==> t < |s.pc| && OnCv(s.pc[t]))
    && (forall t: Thread :: t < |s.pc| && OnCv(s.pc[t]) ==> t in s.cv)
  }

  ghost predicate Locks(s: Sys) {
    LkOk(s) && CvLockOk(s) && OwnerOk(s)
  }

  ghost predicate Inv(s: Sys) {
    S.Inv(s.sem, 1) && Aligned(s) && Locks(s) && OneToken(s) && CvOk(s)
  }

  // ----------------------------------------------------------------- preservation

  /** A lock kept, taken when free, or given up by thread `t`. */
  ghost predicate Hand(h: Option<Thread>, h': Option<Thread>, was: bool, now: bool, t: Thread) {
    || (was == now && h' == h)
    || (!was && now && h.None? && h' == Some(t))
    || (was && !now && h'.None?)
  }

  ghost predicate Hands(s: Sys, s': Sys, t: Thread) {
    && t < |s.pc| == |s'.pc|
    && Hand(s.lk, s'.lk, HasLk(s.pc[t]), HasLk(s'.pc[t]), t)
    && Hand(s.cvLock, s'.cvLock, HasCvLock(s.pc[t]), HasCvLock(s'.pc[t]), t)
    && Hand(s.owner, s'.owner, Owns(s.pc[t]), Owns(s'.pc[t]), t)
    && forall u :: 0 <= u < |s.pc| && u != t ==> s'.pc[u] == s.pc[u]
  }

  lemma HandsKeepLocks(s: Sys, s': Sys, t: Thread)
    requires Locks(s) && Hands(s, s', t)
    ensures Locks(s')
  {
  }

  /** The token stays with whoever had it. */
  ghost predicate TokenKept(s: Sys, s': Sys) {
    s'.sem.count == s.sem.count && forall u :: TokenOf(s', u) <==> TokenOf(s, u)
  }

  lemma TokenKeptOk(s: Sys, s': Sys)
    requires OneToken(s) && TokenKept(s, s')
    ensures OneToken(s')
  {
    if s.sem.count == 0 {
      var t :| TokenOf(s, t);
      assert TokenOf(s', t);
    } else {
      forall t
        ensures !TokenOf(s', t)
      {
        assert TokenOf(s', t) <==> TokenOf(s, t);
      }
    }
  }

  /** An action of lock code outside the semaphore and off the channel. */
  lemma LocalStep(s: Sys, s': Sys, t: Thread)
    requires Inv(s) && Hands(s, s', t) && s'.sem == s.sem && s'.cv == s.cv
    requires Matches(s'.pc[t], s.sem.pc[t]) && OnCv(s'.pc[t]) == OnCv(s.pc[t])
    requires Token(s'.pc[t], s.sem.pc[t]) == Token(s.pc[t], s.sem.pc[t])
    ensures Inv(s')
  {
    HandsKeepLocks(s, s', t);
    TokenKeptOk(s, s');
  }

  lemma SleepKeeps(s: Sys, t: Thread)
    requires Inv(s) && t < |s.pc| && s.pc[t].WaitSleep?
    ensures Inv(At(s, t, WaitQueued).(cv := s.cv + [t]))
  {
    var s' := At(s, t, WaitQueued).(cv := s.cv + [t]);
    HandsKeepLocks(s, s', t);
    TokenKeptOk(s, s');
  }

  /** Waking a waiter moves it from the channel to the runnable threads. */
  lemma WakeKeeps(s: Sys)
    requires Inv(s) && s.cv != []
    requires forall u: Thread :: u < |s.pc| ==> !s.pc[u].WaitQueued?
    ensures Inv(WakeOne(s)) && s.cv[0] < |s.pc| && s.pc[s.cv[0]].WaitAsleep?
    ensures WakeOne(s) == s.(cv := s.cv[1..], pc := s.pc[s.cv[0] := WaitWoken])
  {
    var s' := WakeOne(s);
    assert s.cv[0] in s.cv;
    assert forall t :: t in s.cv[1..] <==> t in s.cv && t != s.cv[0];
    HandsKeepLocks(s, s', s.cv[0]);
    TokenKeptOk(s, s');
  }

  lemma SignalKeeps(s: Sys, t: Thread)
    requires Inv(s) && t < |s.pc| && s.pc[t].SigWake?
    ensures Go(s, t).Went? && Inv(Go(s, t).next)
  {
    var p := if s.pc[t].all && s.cv != [] then s.pc[t] else SigLeave;
    assert s.cvLock == Some(t);
    if s.cv != [] {
      WakeKeeps(s);
      LocalStep(WakeOne(s), At(WakeOne(s), t, p), t);
    } else {
      LocalStep(s, At(s, t, p), t);
    }
  }

  // ------------------------------------------------------------- semaphore actions

  /** What an action of the semaphore changes: the acting thread moves along `P` or `V`, at most one
      sleeper is woken, and the count changes only where the thread takes or adds. */
  ghost predicate SemMoved(q: S.Sem, q': S.Sem, t: Thread) {
    && t < |q.pc| == |q'.pc|
    && (forall u :: 0 <= u < |q.pc| && u != t ==>
          q'.pc[u] == q.pc[u] || (q.pc[u].PAsleep? && q'.pc[u].PWoken?))
    && (if q.pc[t].PTake? then q.count > 0 && q'.count == q.count - 1
        else if q.pc[t].VAdd? then q'.count == q.count + 1
        else q'.count == q.count)
    && (q.pc[t].PTake? <==> q'.pc[t].PLeave?)
    && (q.pc[t].VAdd? <==> q'.pc[t].VWake?)
    && (q.pc[t].VEnter? <==> q'.pc[t].VAdd?)
    && !q'.pc[t].VEnter?
    && (q'.pc[t].Idle? <==> q.pc[t].PLeave? || q.pc[t].VLeave?)
    && (q'.pc[t].VLeave? <==> q.pc[t].VWake?)
  }

  lemma SemEffect(q: S.Sem, t: Thread)
    requires S.Inv(q, 1) && t < |q.pc| && S.Go(q, t).Went?
    ensures S.Inv(S.Go(q, t).next, 1) && SemMoved(q, S.Go(q, t).next, t)
  {
    S.GoKeeps(q, t, 1);
    if q.pc[t].VWake? && q.channel != [] {
      S.HeadLeaves(q);
    }
  }

  /** The token passes only where the semaphore's count changes. */
  lemma TokenPasses(s: Sys, s': Sys, t: Thread)
    requires OneToken(s) && |s.pc| == |s.sem.pc| && |s'.pc| == |s'.sem.pc| == |s.pc| && t < |s.pc|
    requires forall u :: u != t ==> (TokenOf(s', u) <==> TokenOf(s, u))
    requires
      || (TokenOf(s', t) == TokenOf(s, t) && s'.sem.count == s.sem.count)
      || (!TokenOf(s, t) && TokenOf(s', t) && s.sem.count > 0 && s'.sem.count == s.sem.count - 1)
      || (TokenOf(s, t) && !TokenOf(s', t) && s'.sem.count == s.sem.count + 1)
    ensures OneToken(s')
  {
    if TokenOf(s', t) == TokenOf(s, t) {
      TokenKeptOk(s, s');
    } else if TokenOf(s', t) {
      assert s.sem.count == 1;
    } else {
      assert s.sem.count == 0;
    }
  }

  /** The acting thread's lock code moves on when the semaphore returns. */
  ghost predicate Followed(s: Sys, s': Sys, t: Thread) {
    && t < |s.pc| == |s.sem.pc| && (s.pc[t].InP? || s.pc[t].InV?)
    && SemMoved(s.sem, s'.sem, t)
    && var after := if s.pc[t].InP? then Took else RelLeave(s.pc[t].wait);
       s' == At(s, t, if s'.sem.pc[t].Idle? then after else s.pc[t]).(sem := s'.sem)
  }

  lemma SemAligned(s: Sys, s': Sys, t: Thread)
    requires Aligned(s) && Followed(s, s', t)
    ensures Aligned(s')
    ensures forall u :: u != t ==> (TokenOf(s', u) <==> TokenOf(s, u))
  {
  }

  lemma SemToken(s: Sys, s': Sys, t: Thread)
    requires Aligned(s) && OneToken(s) && Followed(s, s', t)
    ensures OneToken(s')
  {
    SemAligned(s, s', t);
    assert Matches(s.pc[t], s.sem.pc[t]);
    TokenPasses(s, s', t);
  }

  lemma SemFollowed(s: Sys, s': Sys, t: Thread)
    requires Inv(s) && S.Inv(s'.sem, 1) && Followed(s, s', t)
    ensures Inv(s')
  {
    SemAligned(s, s', t);
    SemToken(s, s', t);
    HandsKeepLocks(s, s', t);
  }

  lemma SemStep(s: Sys, t: Thread)
    requires Inv(s) && t < |s.pc| && (s.pc[t].InP? || s.pc[t].InV?)
    ensures !Go(s, t).Crash?
    ensures Go(s, t).Went? ==> Inv(Go(s, t).next)
  {
    S.GoKeeps(s.sem, t, 1);
    if S.Go(s.sem, t).Went? {
      SemEffect(s.sem, t);
      SemFollowed(s, Go(s, t).next, t);
    }
  }

  /** Entering the semaphore, by `P` from an acquire or by `V` from a release. */
  lemma CallSem(s: Sys, s': Sys, t: Thread, q: S.Pc)
    requires Inv(s) && Hands(s, s', t) && s'.cv == s.cv && OnCv(s'.pc[t]) == OnCv(s.pc[t])
    requires s.sem.pc[t].Idle? && (q.PEnter? || q.VEnter?) && s'.sem == S.At(s.sem, t, q)
    requires Matches(s'.pc[t], q) && Token(s'.pc[t], q) == Token(s.pc[t], s.sem.pc[t])
    ensures Inv(s')
  {
    S.CallKeeps(s.sem, t, q, 1);
    HandsKeepLocks(s, s', t);
    TokenKeptOk(s, s');
  }

  // ----------------------------------------------------------------- every action

  /** The call is one the caller's position does not allow: acquiring a lock already held, or anything
      else without holding it. */
  predicate Misuse(p: Pc) {
    p.Check? && (p.op.Acquire? <==> p.held)
  }

  lemma StartKeeps(s: Sys, t: Thread)
    requires Inv(s) && t < |s.pc| && s.pc[t].Check? && s.lk.None?
    ensures Go(s, t).Crash? <==> Misuse(s.pc[t])
    ensures !Go(s, t).Blocked?
    ensures Go(s, t).Went? ==> Inv(Go(s, t).next)
  {
    if !Misuse(s.pc[t]) {
      var s' := Go(s, t).next;
      if s.pc[t].op.Acquire? {
        CallSem(s, s', t, S.PEnter);
      } else {
        LocalStep(s, s', t);
      }
    }
  }

  lemma ClearKeeps(s: Sys, t: Thread)
    requires Inv(s) && t < |s.pc| && s.pc[t].RelClear?
    ensures Go(s, t).Went? && Inv(Go(s, t).next)
  {
    CallSem(s, Go(s, t).next, t, S.VEnter);
  }

  /** A thread about to become the owner finds no owner recorded. */
  lemma OwnerKeeps(s: Sys, t: Thread)
    requires Inv(s) && t < |s.pc| && s.pc[t].OwnerNext?
    ensures s.owner.None? && Go(s, t).Went? && Inv(Go(s, t).next)
  {
    assert TokenOf(s, t);
    assert s.owner.Some? ==> TokenOf(s, s.owner.value);
    LocalStep(s, Go(s, t).next, t);
  }

  lemma WaitCheckKeeps(s: Sys, t: Thread)
    requires Inv(s) && t < |s.pc| && s.pc[t].WaitCheck?
    ensures !Go(s, t).Crash?
    ensures Go(s, t).Went? ==> Inv(Go(s, t).next)
  {
    if Go(s, t).Went? { LocalStep(s, Go(s, t).next, t); }
  }

  /** The actions that only take or drop a spinlock. */
  predicate Spins(p: Pc) {
    || p.Took? || p.OwnerSet? || p.RelEnter? || p.RelLeave? || p.WaitEnter? || p.WaitQueued?
    || p.WaitWoken? || p.WaitLeave? || p.SigEnter? || p.SigLeave?
  }

  lemma SpinMoves(s: Sys, t: Thread)
    requires Aligned(s) && t < |s.pc| && Spins(s.pc[t]) && Go(s, t).Went?
    ensures
      var s' := Go(s, t).next;
      && Hands(s, s', t) && s'.sem == s.sem && s'.cv == s.cv
      && Matches(s'.pc[t], s.sem.pc[t]) && OnCv(s'.pc[t]) == OnCv(s.pc[t])
      && Token(s'.pc[t], s.sem.pc[t]) == Token(s.pc[t], s.sem.pc[t])
  {
    assert Matches(s.pc[t], s.sem.pc[t]);
  }

  lemma SpinKeeps(s: Sys, t: Thread)
    requires Inv(s) && t < |s.pc| && Spins(s.pc[t])
    ensures !Go(s, t).Crash?
    ensures Go(s, t).Went? ==> Inv(Go(s, t).next)
  {
    if Go(s, t).Went? {
      SpinMoves(s, t);
      LocalStep(s, Go(s, t).next, t);
    }
  }

  /** Every action of every thread keeps the invariant; assertions fail exactly on misuse. */
  lemma GoKeeps(s: Sys, t: Thread)
    requires Inv(s) && t < |s.pc|
    ensures Go(s, t).Crash? <==> Misuse(s.pc[t]) && s.lk.None?
    ensures Go(s, t).Went? ==> Inv(Go(s, t).next)
  {
    var p := s.pc[t];
    if p.Check? {
      if s.lk.None? { StartKeeps(s, t); }
    } else if p.InP? || p.InV? {
      SemStep(s, t);
    } else if p.OwnerNext? {
      OwnerKeeps(s, t);
    } else if p.RelClear? {
      ClearKeeps(s, t);
    } else if p.WaitCheck? {
      WaitCheckKeeps(s, t);
    } else if p.WaitSleep? {
      SleepKeeps(s, t);
    } else if p.SigWake? {
      SignalKeeps(s, t);
    } else if !p.Out? && !p.Held? && !p.WaitAsleep? {
      SpinKeeps(s, t);
    }
  }

  // ------------------------------------------------------------------------- runs

  datatype Event = Call(t: Thread, op: Op) | Act(t: Thread)

  /** A new lock and condition variable, with `n` threads about. */
  function Created(n: nat): Sys {
    Sys(S.Created(1, n), None, None, None, [], seq(n, _ => Out))
  }

  ghost predicate Next(s: Sys, e: Event, s': Sys) {
    && e.t < |s.pc| == |s.sem.pc|
    && match e
       case Call(t, op) => (s.pc[t].Out? || s.pc[t].Held?) && s' == At(s, t, Check(op, s.pc[t].Held?))
       case Act(t) => Go(s, t) == Went(s')
  }

  ghost predicate IsRun(states: seq<Sys>, events: seq<Event>, n: nat) {
    && |states| == |events| + 1 && states[0] == Created(n)
    && forall i {:trigger events[i]} :: 0 <= i < |events| ==> Next(states[i], events[i], states[i + 1])
  }

  lemma NextKeeps(s: Sys, e: Event, s': Sys)
    requires Inv(s) && Next(s, e, s')
    ensures Inv(s')
  {
    match e
    case Call(t, op) => LocalStep(s, s', t);
    case Act(t) => GoKeeps(s, t);
  }

  lemma CreatedOk(n: nat)
    ensures Inv(Created(n))
  {
    var s := Created(n);
    forall t
      ensures !TokenOf(s, t)
    {
    }
  }

  lemma {:induction false} RunInv(states: seq<Sys>, events: seq<Event>, n: nat, k: nat)
    requires IsRun(states, events, n) && k <= |events|
    ensures Inv(states[k])
    decreases k
  {
    if k == 0 {
      CreatedOk(n);
    } else {
      RunInv(states, events, n, k - 1);
      assert Next(states[k - 1], events[k - 1], states[k]);
      NextKeeps(states[k - 1], events[k - 1], states[k]);
    }
  }

  ghost function TokenHolders(s: Sys): set<Thread> {
    set t: Thread | t < |s.pc| && TokenOf(s, t)
  }

  /** In every reachable state the semaphore's count and the number of threads with the token add up to
      one, at most one thread is between its acquire and its release, and assertions fail only for
      calls the caller's position does not allow. */
  lemma MutualExclusion(states: seq<Sys>, events: seq<Event>, n: nat, k: nat)
    requires IsRun(states, events, n) && k <= |events|
    ensures
      var s := states[k];
      && |s.pc| == |s.sem.pc|
      && s.sem.count + |TokenHolders(s)| == 1
      && (forall t, u :: 0 <= t < |s.pc| && 0 <= u < |s.pc| && Owns(s.pc[t]) && Owns(s.pc[u]) ==> t == u)
      && (forall t: Thread :: t < |s.pc| && s.pc[t].OwnerNext? ==> s.owner.None?)
      && (forall t: Thread :: t < |s.pc| ==> (Go(s, t).Crash? <==> Misuse(s.pc[t]) && s.lk.None?))
  {
    RunInv(states, events, n, k);
    var s := states[k];
    if s.sem.count == 0 {
      var t: Thread :| TokenOf(s, t);
      assert TokenHolders(s) == {t};
    } else {
      assert TokenHolders(s) == {};
    }
    forall t: Thread | t < |s.pc|
      ensures Go(s, t).Crash? <==> Misuse(s.pc[t]) && s.lk.None?
      ensures s.pc[t].OwnerNext? ==> s.owner.None?
    {
      GoKeeps(s, t);
      if s.pc[t].OwnerNext? { OwnerKeeps(s, t); }
    }
  }

  /** A thread in `cv_wait` that has given up the lock and has not been woken. */
  predicate Waiting(p: Pc) {
    || p.WaitSleep? || p.WaitQueued? || p.WaitAsleep?
    || ((p.InV? || p.RelLeave?) && p.wait)
  }

  /** `cv_wait` releases the lock and sleeps in one: whenever some thread is about to wake waiters, the
      channel holds exactly the threads that have given up the lock in `cv_wait` and have not been
      woken. */
  lemma SignalFindsWaiters(states: seq<Sys>, events: seq<Event>, n: nat, k: nat, u: Thread)
    requires IsRun(states, events, n) && k <= |events|
    requires u < |states[k].pc| && states[k].pc[u].SigWake?
    ensures forall t: Thread :: t < |states[k].pc| ==> (t in states[k].cv <==> Waiting(states[k].pc[t]))
  {
    RunInv(states, events, n, k);
    assert states[k].cvLock == Some(u);
  }

  /** An action of a thread that is about to wake waiters takes the first waiter off the channel and makes it
      runnable, leaves the others asleep in their order, and touches nobody else. */
  lemma WakesFirst(s: Sys, t: Thread)
    requires Inv(s) && t < |s.pc| && s.pc[t].SigWake?
    ensures Go(s, t).Went?
    ensures
      var s' := Go(s, t).next;
      && |s'.pc| == |s.pc| && s'.pc[t] == (if s.pc[t].all && s.cv != [] then SigWake(true) else SigLeave)
      && s'.cv == (if s.cv == [] then [] else s.cv[1..])
      && forall u: Thread :: u < |s.pc| && u != t ==>
        s'.pc[u] == if s.cv != [] && u == s.cv[0] then WaitWoken else s.pc[u]
  {
    SignalKeeps(s, t);
    assert s.cvLock == Some(t);
    if s.cv != [] { WakeKeeps(s); }
  }

  /** An action that wakes nobody moves only the thread that acts. */
  lemma MovesItself(s: Sys, u: Thread)
    requires u < |s.pc| == |s.sem.pc| && !s.pc[u].SigWake? && Go(s, u).Went?
    ensures |Go(s, u).next.pc| == |s.pc|
    ensures forall t: Thread :: t < |s.pc| && t != u ==> Go(s, u).next.pc[t] == s.pc[t]
  {
  }

  /** A thread without the condition variable's spinlock neither changes the channel nor, if it is asleep or
      just woken, moves while another has it. */
  lemma WithoutCvLock(s: Sys, u: Thread)
    requires u < |s.pc| == |s.sem.pc| && !HasCvLock(s.pc[u]) && s.cvLock.Some? && Go(s, u).Went?
    ensures Go(s, u).next.cv == s.cv && !s.pc[u].WaitAsleep? && !s.pc[u].WaitWoken?
  {
  }

  /** An action of another thread while `t` has the condition variable's spinlock. */
  lemma OthersWait(s: Sys, e: Event, s': Sys, t: Thread)
    requires Inv(s) && Next(s, e, s') && t < |s.pc| && HasCvLock(s.pc[t]) && e.t != t
    ensures s'.cv == s.cv && |s'.pc| == |s.pc| && s'.pc[t] == s.pc[t]
    ensures forall u: Thread :: u < |s.pc| && s.pc[u].WaitWoken? ==> s'.pc[u] == s.pc[u]
  {
    assert s.cvLock == Some(t);
    assert !HasCvLock(s.pc[e.t]);
    if e.Act? {
      WithoutCvLock(s, e.t);
      MovesItself(s, e.t);
    }
  }

  /** A waiter still on the channel when the lock is next taken stays there until it is woken: an action
      of any thread that takes it off makes it runnable. */
  lemma OnlyWakingRemoves(s: Sys, t: Thread, w: Thread)
    requires Inv(s) && t < |s.pc| && Go(s, t).Went? && w in s.cv && w !in Go(s, t).next.cv
    ensures s.pc[t].SigWake? && w == s.cv[0] && w < |Go(s, t).next.pc| && Go(s, t).next.pc[w].WaitWoken?
  {
    OnlySignalShrinks(s, t);
    assert s.cvLock == Some(t);
    WakeKeeps(s);
    assert forall x :: x in s.cv[1..] <==> x in s.cv && x != s.cv[0];
  }

  lemma OnlySignalShrinks(s: Sys, t: Thread)
    requires t < |s.pc| == |s.sem.pc| && Go(s, t).Went?
    ensures s.pc[t].SigWake? || s.cv <= Go(s, t).next.cv
  {
  }

  // ------------------------------------------------------------------ waking waiters

  /** How many of `waiters` a thread inside a signal or broadcast has woken by now. */
  ghost predicate Woken(s: Sys, t: Thread, all: bool, waiters: seq<Thread>, m: nat) {
    && t < |s.pc| && m <= |waiters| && s.cv == waiters[m..]
    && (forall i :: 0 <= i < m ==> waiters[i] < |s.pc| && s.pc[waiters[i]].WaitWoken?)
    && (s.pc[t] == SigWake(all) ==> all || m == 0)
    && (s.pc[t].SigLeave? ==> m == if all then |waiters| else Min(1, |waiters|))
    && (s.pc[t].SigWake? || s.pc[t].SigLeave?) && (s.pc[t].SigWake? ==> s.pc[t].all == all)
  }

  lemma WakesOneMore(s: Sys, t: Thread, all: bool, waiters: seq<Thread>, m: nat) returns (m': nat)
    requires Inv(s) && Woken(s, t, all, waiters, m) && s.pc[t].SigWake?
    ensures Go(s, t).Went? && Woken(Go(s, t).next, t, all, waiters, m')
  {
    WakesFirst(s, t);
    assert s.cvLock == Some(t);
    m' := if s.cv == [] then m else m + 1;
    if s.cv != [] {
      assert s.cv[0] in s.cv && s.cv[0] == waiters[m];
      assert s.cv[1..] == waiters[m + 1..];
    }
  }

  lemma StillWoken(s: Sys, e: Event, s': Sys, t: Thread, all: bool, waiters: seq<Thread>, m: nat)
    requires Inv(s) && Next(s, e, s') && e.t != t && Woken(s, t, all, waiters, m)
    ensures Woken(s', t, all, waiters, m)
  {
    OthersWait(s, e, s', t);
  }

  /** From the moment a thread has the condition variable's spinlock in order to signal or broadcast. */
  lemma {:induction false} WokenSoFar(states: seq<Sys>, events: seq<Event>, n: nat, j: nat, k: nat, t: Thread)
    returns (m: nat)
    requires IsRun(states, events, n) && 0 < j <= k <= |events| && events[j - 1] == Act(t)
    requires t < |states[j - 1].pc| && states[j - 1].pc[t].SigEnter?
    requires forall i :: j <= i < k ==> t < |states[i].pc| && states[i].pc[t].SigWake?
    ensures Woken(states[k], t, states[j - 1].pc[t].all, states[j - 1].cv, m)
    decreases k
  {
    var all, waiters := states[j - 1].pc[t].all, states[j - 1].cv;
    if k == j {
      assert Next(states[j - 1], events[j - 1], states[j]);
      m := 0;
    } else {
      m := WokenSoFar(states, events, n, j, k - 1, t);
      RunInv(states, events, n, k - 1);
      var s, e := states[k - 1], events[k - 1];
      assert Next(s, e, states[k]);
      if e.t == t {
        assert e.Act?;
        m := WakesOneMore(s, t, all, waiters, m);
      } else {
        StillWoken(s, e, states[k], t, all, waiters, m);
      }
    }
  }

  // -------------------------------------------------------------------- calls and returns

  /** What thread `t` last called among the first `k` events. */
  function LastCall(events: seq<Event>, k: nat, t: Thread): Option<Op>
    requires k <= |events|
    decreases k
  {
    if k == 0 then None
    else if events[k - 1].Call? && events[k - 1].t == t then Some(events[k - 1].op)
    else LastCall(events, k - 1, t)
  }

  /** A place on the way through an acquire. */
  predicate Acquiring(p: Pc) {
    p.InP? || p.Took? || p.OwnerNext? || p.OwnerSet? || p.Held?
  }

  predicate Releasing(p: Pc, wait: bool) {
    (p.RelEnter? || p.RelClear? || p.InV? || p.RelLeave?) && p.wait == wait
  }

  /** A place on the way from the call to its return, or where it returns to. */
  predicate Serves(call: Option<Op>, p: Pc) {
    match call
    case None => p.Out?
    case Some(op) =>
      || (p.Check? && p.op == op)
      || match op
         case Acquire => Acquiring(p)
         case Release => Releasing(p, false) || p.Out?
         case Wait =>
           || p.WaitEnter? || p.WaitCheck? || Releasing(p, true)
           || p.WaitSleep? || OnCv(p) || p.WaitWoken? || p.WaitLeave?
           || p == Check(Acquire, false) || Acquiring(p)
         case Signal => p == SigEnter(false) || p == SigWake(false) || p.SigLeave? || p.Held?
         case Broadcast => p == SigEnter(true) || p == SigWake(true) || p.SigLeave? || p.Held?
  }

  lemma ServesOn(s: Sys, t: Thread, call: Option<Op>)
    requires Inv(s) && t < |s.pc| && Go(s, t).Went? && Serves(call, s.pc[t])
    ensures t < |Go(s, t).next.pc| && Serves(call, Go(s, t).next.pc[t])
  {
    if s.pc[t].SigWake? { WakesFirst(s, t); }
  }

  /** Another thread moves a thread only by waking it. */
  lemma OnlyWoken(s: Sys, u: Thread, t: Thread)
    requires Inv(s) && u < |s.pc| && Go(s, u).Went? && u != t && t < |s.pc|
    ensures
      var s' := Go(s, u).next;
      |s'.pc| == |s.pc| && (s'.pc[t] == s.pc[t] || (OnCv(s.pc[t]) && s'.pc[t].WaitWoken?))
  {
    if s.pc[u].SigWake? {
      WakesFirst(s, u);
      if s.cv != [] { assert s.cv[0] in s.cv; }
    } else {
      MovesItself(s, u);
    }
  }

  /** What an event leaves of the way through a call. */
  lemma ServesNext(s: Sys, e: Event, s': Sys, t: Thread, call: Option<Op>)
    requires Inv(s) && Next(s, e, s') && t < |s.pc| && Serves(call, s.pc[t])
    ensures |s'.pc| == |s.pc|
    ensures Serves(if e.Call? && e.t == t then Some(e.op) else call, s'.pc[t])
  {
    if e.Act? {
      if e.t == t {
        ServesOn(s, t, call);
        if s.pc[t].SigWake? { WakesFirst(s, t); } else { MovesItself(s, t); }
      } else {
        OnlyWoken(s, e.t, t);
      }
    }
  }

  /** Every thread is on the way through its last call, or where that returns to. */
  lemma {:induction false} CallsFollowed(states: seq<Sys>, events: seq<Event>, n: nat, k: nat, t: Thread)
    requires IsRun(states, events, n) && k <= |events| && t < n
    ensures |states[k].pc| == n && Serves(LastCall(events, k, t), states[k].pc[t])
    decreases k
  {
    if k > 0 {
      CallsFollowed(states, events, n, k - 1, t);
      RunInv(states, events, n, k - 1);
      assert Next(states[k - 1], events[k - 1], states[k]);
      ServesNext(states[k - 1], events[k - 1], states[k], t, LastCall(events, k - 1, t));
    }
  }

  /** A thread that is back from `lock_acquire`, `cv_wait`, `cv_signal` or `cv_broadcast` owns the lock; one
      that is back from `lock_release`, or has called nothing, does not. */
  lemma ReturnsExact(states: seq<Sys>, events: seq<Event>, n: nat, k: nat, t: Thread)
    requires IsRun(states, events, n) && k <= |events| && t < n
    requires t < |states[k].pc| && (states[k].pc[t].Out? || states[k].pc[t].Held?)
    ensures
      var call := LastCall(events, k, t);
      states[k].owner == Some(t) <==> call.Some? && !call.value.Release?
  {
    CallsFollowed(states, events, n, k, t);
    RunInv(states, events, n, k);
  }

  lemma RestAsleep(s: Sys, waiters: seq<Thread>, m: nat)
    requires CvOk(s) && m <= |waiters| && s.cv == waiters[m..]
    ensures forall i :: m <= i < |waiters| ==> waiters[i] < |s.pc| && OnCv(s.pc[waiters[i]])
  {
    forall i | m <= i < |waiters|
      ensures waiters[i] in s.cv
    {
      assert s.cv[i - m] == waiters[i];
    }
  }

  /** A thread wakes all waiters exactly if it has called `cv_broadcast`. */
  lemma SignalCalled(states: seq<Sys>, events: seq<Event>, n: nat, j: nat, t: Thread)
    requires IsRun(states, events, n) && 0 < j <= |events| && events[j - 1] == Act(t) && t < n
    requires t < |states[j - 1].pc| && states[j - 1].pc[t].SigEnter?
    ensures states[j - 1].pc[t].all <==> LastCall(events, j, t) == Some(Broadcast)
  {
    CallsFollowed(states, events, n, j - 1, t);
  }

  /** A signal wakes exactly the first of the threads it finds on the channel, a broadcast all of them; the
      others stay there in their order. */
  lemma WakesExactly(states: seq<Sys>, events: seq<Event>, n: nat, j: nat, k: nat, t: Thread)
    requires IsRun(states, events, n) && 0 < j <= k <= |events| && events[j - 1] == Act(t) && t < n
    requires t < |states[j - 1].pc| && states[j - 1].pc[t].SigEnter?
    requires forall i :: j <= i < k ==> t < |states[i].pc| && states[i].pc[t].SigWake?
    requires t < |states[k].pc| && states[k].pc[t].SigLeave?
    ensures
      var (s, waiters) := (states[k], states[j - 1].cv);
      var m := if LastCall(events, j, t) == Some(Broadcast) then |waiters| else Min(1, |waiters|);
      && s.cv == waiters[m..]
      && (forall i :: 0 <= i < m ==> waiters[i] < |s.pc| && s.pc[waiters[i]].WaitWoken?)
      && (forall i :: m <= i < |waiters| ==> waiters[i] < |s.pc| && OnCv(s.pc[waiters[i]]))
  {
    var m := WokenSoFar(states, events, n, j, k, t);
    SignalCalled(states, events, n, j, t);
    RunInv(states, events, n, k);
    RestAsleep(states[k], states[j - 1].cv, m);
  }

  // ------------------------------------------------------------------- order of waiters

  ghost function Channels(states: seq<Sys>): (h: seq<seq<Thread>>)
    ensures |h| == |states| && forall i :: 0 <= i < |h| ==> h[i] == states[i].cv
  {
    seq(|states|, i requires 0 <= i < |states| => states[i].cv)
  }

  lemma KeepsChannel(s: Sys, t: Thread)
    requires t < |s.pc| == |s.sem.pc| && !s.pc[t].SigWake? && !s.pc[t].WaitSleep? && Go(s, t).Went?
    ensures Go(s, t).next.cv == s.cv
  {
  }

  lemma ChannelMoves(s: Sys, e: Event, s': Sys)
    requires Inv(s) && Next(s, e, s')
    ensures S.Moves(s.cv, s'.cv)
  {
    if e.Act? {
      if s.pc[e.t].SigWake? {
        WakesFirst(s, e.t);
      } else if s.pc[e.t].WaitSleep? {
        assert s'.cv == s.cv + [e.t] && e.t !in s.cv;
      } else {
        KeepsChannel(s, e.t);
      }
    }
  }

  lemma ChannelHistory(states: seq<Sys>, events: seq<Event>, n: nat)
    requires IsRun(states, events, n)
    ensures S.IsHistory(Channels(states))
  {
    var h := Channels(states);
    forall i | 0 < i < |h|
      ensures S.Moves(h[i - 1], h[i])
    {
      RunInv(states, events, n, i - 1);
      assert Next(states[i - 1], events[i - 1], states[i]);
      ChannelMoves(states[i - 1], events[i - 1], states[i]);
    }
  }

  /** The waiters are always listed from the one that went to sleep first to the one that did so last, so a
      signal wakes the one that has waited longest. */
  lemma FirstWaitedLongest(states: seq<Sys>, events: seq<Event>, n: nat, k: nat, i: nat, j: nat)
    requires IsRun(states, events, n) && k <= |events| && i < j < |states[k].cv|
    ensures
      var (h, cv) := (Channels(states), states[k].cv);
      S.JoinedAt(h, k, cv[i]) < S.JoinedAt(h, k, cv[j])
  {
    ChannelHistory(states, events, n);
    S.OldestFirst(Channels(states), k, i, j);
  }

  // --------------------------------------------------------------------- progress

  /** The thread is outside all lock code, asleep on the condition variable, or asleep for the lock. */
  predicate Quiet(p: Pc, q: S.Pc) {
    p.Out? || p.Held? || p.WaitAsleep? || (p.InP? && q.PAsleep?)
  }

  ghost predicate Stuck(s: Sys)
    requires |s.pc| == |s.sem.pc|
  {
    forall t: Thread :: t < |s.pc| ==> Go(s, t).Blocked?
  }

  /** The holder of the semaphore's spinlock can act. */
  lemma SemHolderActs(s: Sys, u: Thread)
    requires Inv(s) && s.sem.lock == Some(u)
    ensures u < |s.pc| && !Go(s, u).Blocked?
  {
    S.HolderGoes(s.sem, u, 1);
    assert Matches(s.pc[u], s.sem.pc[u]);
  }

  /** In a stuck state no spinlock is held. */
  lemma StuckSem(s: Sys)
    requires Inv(s) && Stuck(s)
    ensures s.sem.lock.None?
  {
    if s.sem.lock.Some? { SemHolderActs(s, s.sem.lock.value); }
  }

  lemma StuckLk(s: Sys)
    requires Inv(s) && Stuck(s)
    ensures s.lk.None?
  {
    StuckSem(s);
    if s.lk.Some? {
      var u := s.lk.value;
      assert HasLk(s.pc[u]) && Matches(s.pc[u], s.sem.pc[u]) && Go(s, u).Blocked?;
    }
  }

  lemma StuckCvLock(s: Sys)
    requires Inv(s) && Stuck(s)
    ensures s.cvLock.None?
  {
    StuckLk(s);
    if s.cvLock.Some? {
      var u := s.cvLock.value;
      assert HasCvLock(s.pc[u]) && Go(s, u).Blocked?;
    }
  }

  lemma StuckIsQuiet(s: Sys, t: Thread)
    requires Inv(s) && Stuck(s) && t < |s.pc|
    ensures Quiet(s.pc[t], s.sem.pc[t])
  {
    StuckCvLock(s);
    StuckLk(s);
    StuckSem(s);
    assert Go(s, t).Blocked? && Matches(s.pc[t], s.sem.pc[t]);
  }

  /** While all threads are quiet and one sleeps for the lock, the lock's owner is at rest with the lock. */
  lemma SleeperHasOwner(s: Sys, t: Thread)
    requires Inv(s) && t < |s.pc| && s.pc[t].InP?
    requires forall u: Thread :: u < |s.pc| ==> Quiet(s.pc[u], s.sem.pc[u])
    ensures s.owner.Some? && s.owner.value < |s.pc| && s.pc[s.owner.value].Held?
  {
    assert t in s.sem.channel;
    forall u: Thread | u < |s.pc|
      ensures s.sem.pc[u].Idle? || s.sem.pc[u].PAsleep?
    {
      assert Quiet(s.pc[u], s.sem.pc[u]) && Matches(s.pc[u], s.sem.pc[u]);
    }
    assert S.Woken(s.sem.pc) == {} && S.InHand(s.sem) == 0;
    var u: Thread :| TokenOf(s, u);
    assert Quiet(s.pc[u], s.sem.pc[u]);
  }

  /** In every reachable state some thread can act, unless every thread is outside lock code, asleep on the
      condition variable or asleep for the lock, whose owner then rests with it outside lock code. */
  lemma NeverStuck(states: seq<Sys>, events: seq<Event>, n: nat, k: nat)
    requires IsRun(states, events, n) && k <= |events|
    ensures
      var s := states[k];
      && |s.pc| == |s.sem.pc|
      && (Stuck(s) <==> forall t: Thread :: t < |s.pc| ==> Quiet(s.pc[t], s.sem.pc[t]))
      && (Stuck(s) && (exists t: Thread :: t < |s.pc| && s.pc[t].InP?) ==>
            s.owner.Some? && s.owner.value < |s.pc| && s.pc[s.owner.value].Held?)
  {
    RunInv(states, events, n, k);
    var s := states[k];
    if Stuck(s) {
      forall t: Thread | t < |s.pc|
        ensures Quiet(s.pc[t], s.sem.pc[t])
      {
        StuckIsQuiet(s, t);
      }
      if exists t: Thread :: t < |s.pc| && s.pc[t].InP? {
        var t: Thread :| t < |s.pc| && s.pc[t].InP?;
        SleeperHasOwner(s, t);
      }
    }
  }
}
