/** The counting semaphore as a state machine: every step is one action of one thread, and threads
    interleave freely except where the spinlock stops them. */
module Semaphore {
  import opened Common

  type Thread = nat

  /** Where a thread is inside `P` or `V`. `PQueued` is on the wait channel with the spinlock still
      held, `PWoken` is runnable again and has not retaken the spinlock. */
  datatype Pc =
    | Idle
    | PEnter | PTest | PSleep | PQueued | PAsleep | PWoken | PTake | PLeave
    | VEnter | VAdd | VWake | VLeave

  /** `taken` and `added` count the decrements and increments made so far. */
  datatype Sem = Sem(count: nat, lock: Option<Thread>, channel: seq<Thread>, pc: seq<Pc>, taken: nat, added: nat)

  datatype Outcome = Blocked | Crash | Went(next: Sem)

  function At(s: Sem, t: Thread, p: Pc): Sem
    requires t < |s.pc|
  {
    s.(pc := s.pc[t := p])
  }

  /** `wchan_wakeone`: the first thread of the channel becomes runnable. */
  function WakeOne(s: Sem): Sem {
    if s.channel == [] then s
    else if s.channel[0] < |s.pc| then s.(channel := s.channel[1..], pc := s.pc[s.channel[0] := PWoken])
    else s.(channel := s.channel[1..])
  }

  /** The next action of a thread. Taking the spinlock waits until it is free; a sleeping thread does
      nothing until it is woken. */
  function Go(s: Sem, t: Thread): Outcome
    requires t < |s.pc|
  {
    match s.pc[t]
    case Idle => Blocked
    case PEnter => if s.lock.None? then Went(At(s, t, PTest).(lock := Some(t))) else Blocked
    case PWoken => if s.lock.None? then Went(At(s, t, PTest).(lock := Some(t))) else Blocked
    case PTest => Went(At(s, t, if s.count == 0 then PSleep else PTake))
    case PSleep => Went(At(s, t, PQueued).(channel := s.channel + [t]))
    case PQueued => Went(At(s, t, PAsleep).(lock := None))
    case PAsleep => Blocked
    case PTake => if s.count == 0 then Crash else Went(At(s, t, PLeave).(count := s.count - 1, taken := s.taken + 1))
    case PLeave => Went(At(s, t, Idle).(lock := None))
    case VEnter => if s.lock.None? then Went(At(s, t, VAdd).(lock := Some(t))) else Blocked
    case VAdd => Went(At(s, t, VWake).(count := s.count + 1, added := s.added + 1))
    case VWake => Went(At(WakeOne(s), t, VLeave))
    case VLeave => Went(At(s, t, Idle).(lock := None))
  }

  // -------------------------------------------------------------------- invariant

  predicate Inside(p: Pc) {
    p.PTest? || p.PSleep? || p.PQueued? || p.PTake? || p.PLeave? || p.VAdd? || p.VWake? || p.VLeave?
  }

  predicate OnChannel(p: Pc) {
    p.PQueued? || p.PAsleep?
  }

  /** The spinlock is held by the one thread inside. */
  ghost predicate LockOk(s: Sem) {
    && (s.lock.Some? ==> s.lock.value < |s.pc|)
    && forall t: Thread :: t < |s.pc| ==> (Inside(s.pc[t]) <==> s.lock == Some(t))
  }

  ghost predicate ChannelOk(s: Sem) {
    && Distinct(s.channel)
    && (forall t :: t in s.channel ==> t < |s.pc| && OnChannel(s.pc[t]))
    && (forall t: Thread :: t < |s.pc| && OnChannel(s.pc[t]) ==> t in s.channel)
  }

  /** Threads about to sleep saw a zero count, threads about to decrement a positive one. */
  ghost predicate TestsHold(s: Sem) {
    forall t: Thread :: t < |s.pc| ==>
      && (s.pc[t].PSleep? || s.pc[t].PQueued? ==> s.count == 0)
      && (s.pc[t].PTake? ==> s.count > 0)
  }

  ghost function Woken(pc: seq<Pc>): (r: set<Thread>)
    ensures forall t :: t in r <==> 0 <= t < |pc| && pc[t].PWoken?
  {
    set t: Thread | t < |pc| && pc[t].PWoken?
  }

  /** A holder of the spinlock that is about to take from the count, or to wake a sleeper. */
  ghost function InHand(s: Sem): nat {
    if s.lock.Some? && s.lock.value < |s.pc| &&
       (s.pc[s.lock.value].PTest? || s.pc[s.lock.value].PTake? || s.pc[s.lock.value].VWake?) then 1 else 0
  }

  /** While anyone sleeps, each unit of the count has a thread on its way to it. */
  ghost predicate NoneLost(s: Sem) {
    s.channel != [] ==> s.count <= |Woken(s.pc)| + InHand(s)
  }

  ghost predicate Inv(s: Sem, initial: nat) {
    && LockOk(s) && ChannelOk(s) && TestsHold(s) && NoneLost(s)
    && s.count + s.taken == initial + s.added
  }

  // ----------------------------------------------------------------- preservation

  lemma WokenSame(pc: seq<Pc>, t: Thread, p: Pc)
    requires t < |pc| && (pc[t].PWoken? <==> p.PWoken?)
    ensures Woken(pc[t := p]) == Woken(pc)
  {
  }

  lemma WokenLess(pc: seq<Pc>, t: Thread, p: Pc)
    requires t < |pc| && pc[t].PWoken? && !p.PWoken?
    ensures |Woken(pc[t := p])| == |Woken(pc)| - 1
  {
    assert Woken(pc[t := p]) == Woken(pc) - {t};
  }

  lemma WokenMore(pc: seq<Pc>, t: Thread)
    requires t < |pc| && !pc[t].PWoken?
    ensures |Woken(pc[t := PWoken])| == |Woken(pc)| + 1
  {
    assert Woken(pc[t := PWoken]) == Woken(pc) + {t};
  }

  /** Removing the head of a channel. */
  lemma HeadLeaves(s: Sem)
    requires LockOk(s) && ChannelOk(s) && s.channel != []
    requires forall t: Thread :: t < |s.pc| ==> !s.pc[t].PQueued?
    ensures LockOk(WakeOne(s)) && ChannelOk(WakeOne(s))
    ensures s.channel[0] < |s.pc| && s.pc[s.channel[0]].PAsleep?
    ensures WakeOne(s).pc == s.pc[s.channel[0] := PWoken]
  {
    assert s.channel[0] in s.channel;
    assert forall t :: t in s.channel[1..] <==> t in s.channel && t != s.channel[0];
  }

  lemma WakeKeeps(s: Sem, t: Thread, initial: nat)
    requires Inv(s, initial) && t < |s.pc| && s.pc[t].VWake?
    ensures Inv(At(WakeOne(s), t, VLeave), initial)
  {
    if s.channel != [] {
      HeadLeaves(s);
      var s1 := WakeOne(s);
      WokenMore(s.pc, s.channel[0]);
      WokenSame(s1.pc, t, VLeave);
    }
  }

  /** A thread taking the spinlock to test the count. */
  lemma EnterKeeps(s: Sem, t: Thread, initial: nat)
    requires Inv(s, initial) && t < |s.pc| && (s.pc[t].PEnter? || s.pc[t].PWoken?) && s.lock.None?
    ensures Inv(At(s, t, PTest).(lock := Some(t)), initial)
  {
    if s.pc[t].PWoken? { WokenLess(s.pc, t, PTest); } else { WokenSame(s.pc, t, PTest); }
  }

  lemma QueueKeeps(s: Sem, t: Thread, initial: nat)
    requires Inv(s, initial) && t < |s.pc| && s.pc[t].PSleep?
    ensures Inv(At(s, t, PQueued).(channel := s.channel + [t]), initial)
  {
    WokenSame(s.pc, t, PQueued);
  }

  lemma LeaveKeeps(s: Sem, t: Thread, p: Pc, initial: nat)
    requires Inv(s, initial) && t < |s.pc|
    requires (s.pc[t].PQueued? && p.PAsleep?) || ((s.pc[t].PLeave? || s.pc[t].VLeave?) && p.Idle?)
    ensures Inv(At(s, t, p).(lock := None), initial)
  {
    WokenSame(s.pc, t, p);
  }

  lemma TestKeeps(s: Sem, t: Thread, initial: nat)
    requires Inv(s, initial) && t < |s.pc| && s.pc[t].PTest?
    ensures Inv(At(s, t, if s.count == 0 then PSleep else PTake), initial)
  {
    WokenSame(s.pc, t, if s.count == 0 then PSleep else PTake);
  }

  lemma TakeKeeps(s: Sem, t: Thread, initial: nat)
    requires Inv(s, initial) && t < |s.pc| && s.pc[t].PTake?
    ensures s.count > 0
    ensures Inv(At(s, t, PLeave).(count := s.count - 1, taken := s.taken + 1), initial)
  {
    WokenSame(s.pc, t, PLeave);
  }

  lemma AddKeeps(s: Sem, t: Thread, initial: nat)
    requires Inv(s, initial) && t < |s.pc| && s.pc[t].VAdd?
    ensures Inv(At(s, t, VWake).(count := s.count + 1, added := s.added + 1), initial)
  {
    WokenSame(s.pc, t, VWake);
  }

  lemma EnterVKeeps(s: Sem, t: Thread, initial: nat)
    requires Inv(s, initial) && t < |s.pc| && s.pc[t].VEnter? && s.lock.None?
    ensures Inv(At(s, t, VAdd).(lock := Some(t)), initial)
  {
    WokenSame(s.pc, t, VAdd);
  }

  /** A thread that calls `P` or `V`. */
  lemma CallKeeps(s: Sem, t: Thread, p: Pc, initial: nat)
    requires Inv(s, initial) && t < |s.pc| && s.pc[t].Idle? && (p.PEnter? || p.VEnter?)
    ensures Inv(At(s, t, p), initial)
  {
    WokenSame(s.pc, t, p);
  }

  /** Every action of every thread keeps the invariant, and none fails an assertion. */
  lemma GoKeeps(s: Sem, t: Thread, initial: nat)
    requires Inv(s, initial) && t < |s.pc|
    ensures !Go(s, t).Crash?
    ensures Go(s, t).Went? ==> Inv(Go(s, t).next, initial)
  {
    match s.pc[t]
    case PEnter => if s.lock.None? { EnterKeeps(s, t, initial); }
    case PWoken => if s.lock.None? { EnterKeeps(s, t, initial); }
    case PTest => TestKeeps(s, t, initial);
    case PSleep => QueueKeeps(s, t, initial);
    case PQueued => LeaveKeeps(s, t, PAsleep, initial);
    case PTake => TakeKeeps(s, t, initial);
    case PLeave => LeaveKeeps(s, t, Idle, initial);
    case VEnter => if s.lock.None? { EnterVKeeps(s, t, initial); }
    case VAdd => AddKeeps(s, t, initial);
    case VWake => WakeKeeps(s, t, initial);
    case VLeave => LeaveKeeps(s, t, Idle, initial);
    case _ =>
  }

  // ------------------------------------------------------------------------- runs

  datatype Event = CallP(t: Thread) | CallV(t: Thread) | Act(t: Thread)

  /** `sem_create` with `n` threads about. */
  function Created(initial: nat, n: nat): Sem {
    Sem(initial, None, [], seq(n, _ => Idle), 0, 0)
  }

  ghost predicate Next(s: Sem, e: Event, s': Sem) {
    && e.t < |s.pc|
    && match e
       case CallP(t) => s.pc[t].Idle? && s' == At(s, t, PEnter)
       case CallV(t) => s.pc[t].Idle? && s' == At(s, t, VEnter)
       case Act(t) => Go(s, t) == Went(s')
  }

  ghost predicate IsRun(states: seq<Sem>, events: seq<Event>, initial: nat, n: nat) {
    && |states| == |events| + 1 && states[0] == Created(initial, n)
    && forall i {:trigger events[i]} :: 0 <= i < |events| ==> Next(states[i], events[i], states[i + 1])
  }

  lemma CreatedOk(initial: nat, n: nat)
    ensures Inv(Created(initial, n), initial)
  {
  }

  lemma NextKeeps(s: Sem, e: Event, s': Sem, initial: nat)
    requires Inv(s, initial) && Next(s, e, s')
    ensures Inv(s', initial) && |s'.pc| == |s.pc|
  {
    match e
    case CallP(t) => CallKeeps(s, t, PEnter, initial);
    case CallV(t) => CallKeeps(s, t, VEnter, initial);
    case Act(t) => GoKeeps(s, t, initial);
  }

  lemma {:induction false} RunInv(states: seq<Sem>, events: seq<Event>, initial: nat, n: nat, k: nat)
    requires IsRun(states, events, initial, n) && k <= |events|
    ensures Inv(states[k], initial) && |states[k].pc| == n
    decreases k
  {
    if k == 0 {
      CreatedOk(initial, n);
    } else {
      RunInv(states, events, initial, n, k - 1);
      assert Next(states[k - 1], events[k - 1], states[k]);
      NextKeeps(states[k - 1], events[k - 1], states[k], initial);
    }
  }

  /** In every reachable state the count is the initial one plus the increments less the decrements,
      no action can fail an assertion, and while some thread sleeps the count is at most the number of
      woken threads that have not rechecked plus the units in hand of the spinlock's holder. With the
      spinlock free there are none in hand, so a positive count means that some thread is about to
      recheck. */
  lemma NoLostWakeup(states: seq<Sem>, events: seq<Event>, initial: nat, n: nat, k: nat)
    requires IsRun(states, events, initial, n) && k <= |events|
    ensures
      var s := states[k];
      && s.count + s.taken == initial + s.added
      && (forall t: Thread :: t < |s.pc| ==> !Go(s, t).Crash?)
      && NoneLost(s)
      && (s.channel != [] && s.lock.None? ==> s.count <= |Woken(s.pc)|)
      && (s.channel != [] && s.lock.None? && s.count > 0 ==> exists t :: 0 <= t < |s.pc| && s.pc[t].PWoken?)
  {
    RunInv(states, events, initial, n, k);
    var s := states[k];
    forall t: Thread | t < |s.pc|
      ensures !Go(s, t).Crash?
    {
      GoKeeps(s, t, initial);
    }
    if s.channel != [] && s.lock.None? && s.count > 0 {
      assert Woken(s.pc) != {};
      var t :| t in Woken(s.pc);
    }
  }

  /** No run is stuck with a unit to take: if the count is positive and some thread is inside `P` or
      `V`, then some thread has a next action. */
  lemma NeverStuck(states: seq<Sem>, events: seq<Event>, initial: nat, n: nat, k: nat)
    requires IsRun(states, events, initial, n) && k <= |events|
    requires states[k].count > 0 && exists t: Thread :: t < |states[k].pc| && !states[k].pc[t].Idle?
    ensures exists t: Thread :: t < |states[k].pc| && Go(states[k], t).Went?
  {
    NoLostWakeup(states, events, initial, n, k);
    RunInv(states, events, initial, n, k);
    var s := states[k];
    if s.lock.Some? {
      HolderGoes(s, s.lock.value, initial);
    } else if s.channel == [] {
      var t: Thread :| t < |s.pc| && !s.pc[t].Idle?;
      assert Go(s, t).Went?;
    } else {
      var t :| 0 <= t < |s.pc| && s.pc[t].PWoken?;
      assert Go(s, t).Went?;
    }
  }

  lemma HolderGoes(s: Sem, t: Thread, initial: nat)
    requires Inv(s, initial) && t < |s.pc| && s.lock == Some(t)
    ensures Go(s, t).Went?
  {
    assert Inside(s.pc[t]);
  }

  // ---------------------------------------------------------------- calls that returned

  predicate InP(p: Pc) {
    p.PEnter? || p.PTest? || p.PSleep? || p.PQueued? || p.PAsleep? || p.PWoken? || p.PTake? || p.PLeave?
  }

  predicate InV(p: Pc) {
    p.VEnter? || p.VAdd? || p.VWake? || p.VLeave?
  }

  /** The thread's last call is one of `P`. */
  predicate CalledP(events: seq<Event>, k: nat, t: Thread)
    requires k <= |events|
    decreases k
  {
    if k == 0 then false
    else if events[k - 1] == CallP(t) then true
    else if events[k - 1] == CallV(t) then false
    else CalledP(events, k - 1, t)
  }

  /** In event `i` a call returns, one of `P` or one of `V`. */
  predicate Returns(states: seq<Sem>, events: seq<Event>, i: nat, ofP: bool)
    requires i < |events| < |states|
  {
    var t := events[i].t;
    && t < |states[i].pc| && !states[i].pc[t].Idle?
    && t < |states[i + 1].pc| && states[i + 1].pc[t].Idle?
    && CalledP(events, i, t) == ofP
  }

  /** The number of calls that returned in the first `k` events. */
  function Returned(states: seq<Sem>, events: seq<Event>, k: nat, ofP: bool): nat
    requires k <= |events| < |states|
    decreases k
  {
    if k == 0 then 0 else Returned(states, events, k - 1, ofP) + if Returns(states, events, k - 1, ofP) then 1 else 0
  }

  /** The spinlock's holder has changed the count and not returned. */
  function Pending(s: Sem, ofP: bool): nat {
    if s.lock.Some? && s.lock.value < |s.pc| &&
       (var p := s.pc[s.lock.value]; if ofP then p.PLeave? else p.VWake? || p.VLeave?) then 1 else 0
  }

  lemma {:induction false} CallsFollowed(states: seq<Sem>, events: seq<Event>, initial: nat, n: nat, k: nat, t: Thread)
    requires IsRun(states, events, initial, n) && k <= |events| && t < n
    ensures t < |states[k].pc|
    ensures InP(states[k].pc[t]) ==> CalledP(events, k, t)
    ensures InV(states[k].pc[t]) ==> !CalledP(events, k, t)
    decreases k
  {
    if k > 0 {
      CallsFollowed(states, events, initial, n, k - 1, t);
      RunInv(states, events, initial, n, k - 1);
      RunInv(states, events, initial, n, k);
      assert Next(states[k - 1], events[k - 1], states[k]);
      StaysInCall(states[k - 1], events[k - 1], states[k], t, initial);
    }
  }

  /** Only a call takes a thread into `P` or `V`. */
  lemma StaysInCall(s: Sem, e: Event, s': Sem, t: Thread, initial: nat)
    requires Inv(s, initial) && Next(s, e, s') && t < |s.pc| == |s'.pc|
    ensures InP(s'.pc[t]) ==> e == CallP(t) || InP(s.pc[t])
    ensures InV(s'.pc[t]) ==> e == CallV(t) || InV(s.pc[t])
    ensures e == CallP(t) ==> InP(s'.pc[t])
    ensures e == CallV(t) ==> InV(s'.pc[t])
  {
    if e.Act? && s.pc[e.t].VWake? && s.channel != [] { assert s.channel[0] in s.channel; }
  }

  lemma ReturnStep(s: Sem, e: Event, s': Sem, initial: nat)
    requires Inv(s, initial) && Next(s, e, s')
    ensures
      var back := e.Act? && s'.pc[e.t].Idle?;
      && (back ==> s.pc[e.t].PLeave? || s.pc[e.t].VLeave?)
      && s'.taken + Pending(s, true) == s.taken + Pending(s', true) + (if back && s.pc[e.t].PLeave? then 1 else 0)
      && s'.added + Pending(s, false) == s.added + Pending(s', false) + (if back && s.pc[e.t].VLeave? then 1 else 0)
  {
    if e.Act? && s.pc[e.t].VWake? && s.channel != [] { assert s.channel[0] in s.channel; }
  }

  /** Every call of `P` that returned has taken one unit and every call of `V` has added one. */
  lemma {:induction false} ReturnsCounted(states: seq<Sem>, events: seq<Event>, initial: nat, n: nat, k: nat)
    requires IsRun(states, events, initial, n) && k <= |events|
    ensures states[k].taken == Returned(states, events, k, true) + Pending(states[k], true)
    ensures states[k].added == Returned(states, events, k, false) + Pending(states[k], false)
    decreases k
  {
    if k > 0 {
      var s, e, s' := states[k - 1], events[k - 1], states[k];
      ReturnsCounted(states, events, initial, n, k - 1);
      RunInv(states, events, initial, n, k - 1);
      assert Next(s, e, s');
      NextKeeps(s, e, s', initial);
      ReturnStep(s, e, s', initial);
      CallsFollowed(states, events, initial, n, k - 1, e.t);
    }
  }

  /** With the spinlock free the count is the initial one, plus the calls of `V` that returned, less the
      calls of `P` that returned. */
  lemma CountExact(states: seq<Sem>, events: seq<Event>, initial: nat, n: nat, k: nat)
    requires IsRun(states, events, initial, n) && k <= |events| && states[k].lock.None?
    ensures states[k].count + Returned(states, events, k, true) == initial + Returned(states, events, k, false)
  {
    RunInv(states, events, initial, n, k);
    ReturnsCounted(states, events, initial, n, k);
  }

  // ------------------------------------------------------------------ order of sleepers

  /** From one state to the next a channel stays as it is, loses its first thread or gets a new last one. */
  predicate Moves(c: seq<Thread>, c': seq<Thread>) {
    || c' == c
    || (c != [] && c' == c[1..])
    || (c' != [] && c' == c + [c'[|c'| - 1]] && c'[|c'| - 1] !in c)
  }

  ghost predicate IsHistory(h: seq<seq<Thread>>) {
    && h != [] && h[0] == []
    && forall i {:trigger h[i]} :: 0 < i < |h| ==> Moves(h[i - 1], h[i])
  }

  /** When a thread last joined the channel, up to state `k`. */
  function JoinedAt(h: seq<seq<Thread>>, k: nat, t: Thread): (i: nat)
    requires k < |h|
    ensures i <= k
    decreases k
  {
    if k == 0 then 0 else if t in h[k] && t !in h[k - 1] then k else JoinedAt(h, k - 1, t)
  }

  /** A channel always lists its threads from the one that joined first to the one that joined last. */
  lemma {:induction false} OldestFirst(h: seq<seq<Thread>>, k: nat, i: nat, j: nat)
    requires IsHistory(h) && k < |h| && i < j < |h[k]|
    ensures JoinedAt(h, k, h[k][i]) < JoinedAt(h, k, h[k][j])
    decreases k
  {
    if k > 0 {
      var c, c' := h[k - 1], h[k];
      assert Moves(c, c');
      if c' == c {
        OldestFirst(h, k - 1, i, j);
      } else if c != [] && c' == c[1..] {
        assert c'[i] == c[i + 1] && c'[j] == c[j + 1];
        OldestFirst(h, k - 1, i + 1, j + 1);
      } else {
        assert c'[i] == c[i];
        if j < |c| { OldestFirst(h, k - 1, i, j); }
      }
    }
  }

  ghost function Channels(states: seq<Sem>): (h: seq<seq<Thread>>)
    ensures |h| == |states| && forall i :: 0 <= i < |h| ==> h[i] == states[i].channel
  {
    seq(|states|, i requires 0 <= i < |states| => states[i].channel)
  }

  lemma ChannelMoves(s: Sem, e: Event, s': Sem, initial: nat)
    requires Inv(s, initial) && Next(s, e, s')
    ensures Moves(s.channel, s'.channel)
  {
  }

  lemma ChannelHistory(states: seq<Sem>, events: seq<Event>, initial: nat, n: nat)
    requires IsRun(states, events, initial, n)
    ensures IsHistory(Channels(states))
  {
    var h := Channels(states);
    forall i | 0 < i < |h|
      ensures Moves(h[i - 1], h[i])
    {
      RunInv(states, events, initial, n, i - 1);
      assert Next(states[i - 1], events[i - 1], states[i]);
      ChannelMoves(states[i - 1], events[i - 1], states[i], initial);
    }
  }

  /** The first of a channel joined before all others. */
  lemma FirstIsOldest(h: seq<seq<Thread>>, k: nat, u: Thread)
    requires IsHistory(h) && k < |h| && h[k] != [] && u in h[k][1..]
    ensures JoinedAt(h, k, h[k][0]) < JoinedAt(h, k, u)
  {
    var j :| 0 <= j < |h[k][1..]| && h[k][1..][j] == u;
    OldestFirst(h, k, 0, j + 1);
  }

  lemma WakesFirst(s: Sem, t: Thread, s': Sem, initial: nat)
    requires Inv(s, initial) && Next(s, Act(t), s') && s.pc[t].VWake? && s.channel != []
    ensures var first := s.channel[0]; first < |s'.pc| && s'.pc[first].PWoken? && s'.channel == s.channel[1..]
  {
    assert s.channel[0] in s.channel;
  }

  /** `V` wakes the thread that has slept longest. */
  lemma WakesOldest(states: seq<Sem>, events: seq<Event>, initial: nat, n: nat, k: nat, t: Thread)
    requires IsRun(states, events, initial, n) && k < |events| && events[k] == Act(t)
    requires t < |states[k].pc| && states[k].pc[t].VWake? && states[k].channel != []
    ensures
      var (s, s', h) := (states[k], states[k + 1], Channels(states));
      var first := s.channel[0];
      && first < |s'.pc| && s'.pc[first].PWoken? && s'.channel == s.channel[1..]
      && forall u :: u in s'.channel ==> JoinedAt(h, k, first) < JoinedAt(h, k, u)
  {
    var s, s', h := states[k], states[k + 1], Channels(states);
    RunInv(states, events, initial, n, k);
    assert Next(s, events[k], s');
    WakesFirst(s, t, s', initial);
    ChannelHistory(states, events, initial, n);
    forall u | u in s'.channel
      ensures JoinedAt(h, k, s.channel[0]) < JoinedAt(h, k, u)
    {
      FirstIsOldest(h, k, u);
    }
  }
}
