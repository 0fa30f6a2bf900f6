/** The deadlock detector: each actor waits for at most one lockable, each lockable is held by at most
    one actor. */
module Hangman {
  import opened Common
  import opened Finite

  type Actor = nat
  type Lockable = nat

  /** `own` is the lockable of the detector's own spinlock, which is not tracked. */
  datatype Graph = Graph(waiting: seq<Option<Lockable>>, holding: seq<Option<Actor>>, own: Lockable)

  ghost predicate Wf(g: Graph) {
    && (forall a: Actor :: a < |g.waiting| && g.waiting[a].Some? ==> g.waiting[a].value < |g.holding|)
    && (forall l: Lockable :: l < |g.holding| && g.holding[l].Some? ==> g.holding[l].value < |g.waiting|)
  }

  /** The actor that holds what `a` waits for. */
  function Next(g: Graph, a: Actor): Option<Actor> {
    if a < |g.waiting| && g.waiting[a].Some? && g.waiting[a].value < |g.holding| then g.holding[g.waiting[a].value]
    else None
  }

  /** The actor `n` waits-for edges away. */
  function Walk(g: Graph, a: Actor, n: nat): Option<Actor>
    decreases n
  {
    if n == 0 then Some(a)
    else match Next(g, a)
      case None => None
      case Some(b) => Walk(g, b, n - 1)
  }

  /** Nobody waits, directly or through others, for what they hold themselves. */
  ghost predicate Acyclic(g: Graph) {
    forall a: Actor, n: nat :: n > 0 ==> Walk(g, a, n) != Some(a)
  }

  /** The holder of `l` is `target`, or waits through others for something `target` holds. */
  ghost predicate Reaches(g: Graph, l: Lockable, target: Actor) {
    l < |g.holding| && g.holding[l].Some? && exists n: nat :: Walk(g, g.holding[l].value, n) == Some(target)
  }

  // ------------------------------------------------------------------------- walks

  lemma {:induction false} WalkAdd(g: Graph, a: Actor, m: nat, n: nat)
    ensures Walk(g, a, m).None? ==> Walk(g, a, m + n).None?
    ensures Walk(g, a, m).Some? ==> Walk(g, a, m + n) == Walk(g, Walk(g, a, m).value, n)
    decreases m
  {
    if m > 0 && Next(g, a).Some? {
      WalkAdd(g, Next(g, a).value, m - 1, n);
    }
  }

  lemma WalkOne(g: Graph, a: Actor)
    ensures Walk(g, a, 1) == Next(g, a)
  {
    assert Next(g, a).Some? ==> Walk(g, Next(g, a).value, 0) == Next(g, a);
  }

  /** A walk that never stands on `a` before its end does not see a change of `a`'s edge. */
  lemma {:induction false} WalkSame(g: Graph, g': Graph, a: Actor, x: Actor, n: nat)
    requires forall b :: b != a ==> Next(g', b) == Next(g, b)
    requires forall i: nat :: i < n ==> Walk(g', x, i) != Some(a)
    ensures Walk(g, x, n) == Walk(g', x, n)
    decreases n
  {
    if n > 0 {
      assert Walk(g', x, 0) != Some(a);
      if Next(g', x).Some? {
        var y := Next(g', x).value;
        forall i: nat | i < n - 1
          ensures Walk(g', y, i) != Some(a)
        {
          assert Walk(g', x, i + 1) == Walk(g', y, i);
        }
        WalkSame(g, g', a, y, n - 1);
      }
    }
  }

  /** A walk to `a` that stops the first time it gets there. */
  lemma {:induction false} FirstVisit(g: Graph, x: Actor, a: Actor, n: nat) returns (m: nat)
    requires Walk(g, x, n) == Some(a)
    ensures m <= n && Walk(g, x, m) == Some(a) && forall i: nat :: i < m ==> Walk(g, x, i) != Some(a)
    decreases n
  {
    if i: nat :| i < n && Walk(g, x, i) == Some(a) {
      m := FirstVisit(g, x, a, i);
    } else {
      m := n;
    }
  }

  /** Every actor on a cycle has the cycle. */
  lemma Rotate(g: Graph, x: Actor, n: nat, i: nat, a: Actor)
    requires Walk(g, x, n) == Some(x) && Walk(g, x, i) == Some(a)
    ensures Walk(g, a, n) == Some(a)
  {
    WalkAdd(g, x, i, n);
    WalkAdd(g, x, n, i);
  }

  // -------------------------------------------------------------------------- wait

  function Waits(g: Graph, a: Actor, l: Lockable): Graph
    requires a < |g.waiting|
  {
    g.(waiting := g.waiting[a := Some(l)])
  }

  /** A new wait edge closes a cycle exactly when the lockable's holder already leads back to the
      waiter. */
  lemma WaitCloses(g: Graph, a: Actor, l: Lockable)
    requires Acyclic(g) && a < |g.waiting| && l < |g.holding| && g.waiting[a].None?
    ensures Acyclic(Waits(g, a, l)) <==> !Reaches(g, l, a)
  {
    var g' := Waits(g, a, l);
    assert forall b :: b != a ==> Next(g', b) == Next(g, b);
    assert Next(g', a) == g.holding[l];
    if Reaches(g, l, a) {
      var c := g.holding[l].value;
      var n: nat :| Walk(g, c, n) == Some(a);
      var m := FirstVisit(g, c, a, n);
      assert forall b :: b != a ==> Next(g, b) == Next(g', b);
      WalkSame(g', g, a, c, m);
      assert Walk(g', a, m + 1) == Some(a);
    } else {
      forall x: Actor, n: nat | n > 0
        ensures Walk(g', x, n) != Some(x)
      {
        if Walk(g', x, n) == Some(x) { NewCycle(g, a, l, x, n); }
      }
    }
  }

  lemma NewCycle(g: Graph, a: Actor, l: Lockable, x: Actor, n: nat)
    requires Acyclic(g) && a < |g.waiting| && l < |g.holding| && g.waiting[a].None?
    requires n > 0 && Walk(Waits(g, a, l), x, n) == Some(x)
    ensures Reaches(g, l, a)
  {
    var g' := Waits(g, a, l);
    assert forall b :: b != a ==> Next(g', b) == Next(g, b);
    if i: nat :| i < n && Walk(g', x, i) == Some(a) {
      Rotate(g', x, n, i, a);
      assert Next(g', a) == g.holding[l];
      var c := g.holding[l].value;
      assert Walk(g', c, n - 1) == Some(a);
      var m := FirstVisit(g', c, a, n - 1);
      WalkSame(g, g', a, c, m);
    } else {
      WalkSame(g, g', a, x, n);
      assert false;
    }
  }

  // -------------------------------------------------------- acquire and release

  function Acquires(g: Graph, a: Actor, l: Lockable): Graph
    requires a < |g.waiting| && l < |g.holding|
  {
    g.(waiting := g.waiting[a := None], holding := g.holding[l := Some(a)])
  }

  function Releases(g: Graph, l: Lockable): Graph
    requires l < |g.holding|
  {
    g.(holding := g.holding[l := None])
  }

  /** An actor that waits for nothing is on no cycle. */
  lemma NotOnCycle(g: Graph, x: Actor, n: nat, i: nat, a: Actor)
    requires n > 0 && Walk(g, x, n) == Some(x) && Walk(g, x, i) == Some(a)
    ensures Next(g, a).Some?
  {
    Rotate(g, x, n, i, a);
  }

  lemma AcquireKeeps(g: Graph, a: Actor, l: Lockable)
    requires Acyclic(g) && a < |g.waiting| && l < |g.holding|
    requires g.waiting[a] == Some(l) && g.holding[l].None?
    ensures Acyclic(Acquires(g, a, l))
  {
    var g' := Acquires(g, a, l);
    assert Next(g', a).None?;
    forall x: Actor, n: nat | n > 0
      ensures Walk(g', x, n) != Some(x)
    {
      if Walk(g', x, n) == Some(x) {
        forall i: nat
          ensures Walk(g', x, i) != Some(a)
        {
          if Walk(g', x, i) == Some(a) { NotOnCycle(g', x, n, i, a); }
        }
        WalkAvoids(g, g', a, x, n);
        assert false;
      }
    }
  }

  /** A walk that never reaches `a` uses no edge into `a`. */
  lemma {:induction false} WalkAvoids(g: Graph, g': Graph, a: Actor, x: Actor, n: nat)
    requires forall b :: Next(g', b) == Next(g, b) || Next(g', b) == Some(a)
    requires forall i: nat :: i <= n ==> Walk(g', x, i) != Some(a)
    ensures Walk(g, x, n) == Walk(g', x, n)
    decreases n
  {
    if n > 0 {
      WalkOne(g', x);
      if Next(g', x).Some? {
        var y := Next(g', x).value;
        forall i: nat | i <= n - 1
          ensures Walk(g', y, i) != Some(a)
        {
          assert Walk(g', x, i + 1) == Walk(g', y, i);
        }
        WalkAvoids(g, g', a, y, n - 1);
      }
    }
  }

  lemma ReleaseKeeps(g: Graph, l: Lockable)
    requires Acyclic(g) && l < |g.holding|
    ensures Acyclic(Releases(g, l))
  {
    var g' := Releases(g, l);
    forall x: Actor, n: nat | n > 0
      ensures Walk(g', x, n) != Some(x)
    {
      FewerEdges(g, g', x, n);
    }
  }

  lemma {:induction false} FewerEdges(g: Graph, g': Graph, x: Actor, n: nat)
    requires forall b :: Next(g', b) == Next(g, b) || Next(g', b).None?
    ensures Walk(g', x, n).Some? ==> Walk(g, x, n) == Walk(g', x, n)
    decreases n
  {
    if n > 0 && Next(g', x).Some? {
      FewerEdges(g, g', Next(g', x).value, n - 1);
    }
  }

  // ------------------------------------------------------------------------- steps

  datatype Call = Wait(a: Actor, l: Lockable) | Acquire(a: Actor, l: Lockable) | Release(a: Actor, l: Lockable)

  datatype Outcome = Done(g: Graph) | Deadlock | Panic

  ghost function Step(g: Graph, c: Call): Outcome
    requires c.a < |g.waiting| && c.l < |g.holding|
  {
    if c.l == g.own then Done(g)
    else match c
      case Wait(a, l) =>
        if g.waiting[a].Some? then Outcome.Panic
        else if Reaches(g, l, a) then Deadlock
        else Done(Waits(g, a, l))
      case Acquire(a, l) =>
        if g.waiting[a] != Some(l) || g.holding[l].Some? then Outcome.Panic
        else Done(Acquires(g, a, l))
      case Release(a, l) =>
        if g.waiting[a].Some? || g.holding[l] != Some(a) then Outcome.Panic
        else Done(Releases(g, l))
  }

  /** No call leads to a cycle. */
  lemma StepKeeps(g: Graph, c: Call)
    requires Wf(g) && Acyclic(g) && c.a < |g.waiting| && c.l < |g.holding|
    ensures Step(g, c).Done? ==> Wf(Step(g, c).g) && Acyclic(Step(g, c).g)
  {
    if Step(g, c).Done? && c.l != g.own {
      match c
      case Wait(a, l) => WaitCloses(g, a, l);
      case Acquire(a, l) => AcquireKeeps(g, a, l);
      case Release(a, l) => ReleaseKeeps(g, l);
    }
  }

  ghost predicate IsRun(states: seq<Graph>, calls: seq<Call>) {
    && |states| == |calls| + 1
    && (forall a :: 0 <= a < |states[0].waiting| ==> states[0].waiting[a].None?)
    && (forall l :: 0 <= l < |states[0].holding| ==> states[0].holding[l].None?)
    && forall i {:trigger calls[i]} :: 0 <= i < |calls| ==>
      && calls[i].a < |states[i].waiting| && calls[i].l < |states[i].holding|
      && Step(states[i], calls[i]) == Done(states[i + 1])
  }

  lemma {:induction false} RunInv(states: seq<Graph>, calls: seq<Call>, k: nat)
    requires IsRun(states, calls) && k <= |calls|
    ensures Wf(states[k]) && Acyclic(states[k])
    decreases k
  {
    if k > 0 {
      RunInv(states, calls, k - 1);
      assert Step(states[k - 1], calls[k - 1]) == Done(states[k]);
      StepKeeps(states[k - 1], calls[k - 1]);
    }
  }

  // ------------------------------------------------------------------ the calls made

  /** The lockable actor `a` waits for after the first `k` calls: the one of its last wait, unless it has
      acquired since. Calls about the detector's own lockable do not count. */
  function Pending(calls: seq<Call>, own: Lockable, k: nat, a: Actor): Option<Lockable>
    requires k <= |calls|
    decreases k
  {
    if k == 0 then None
    else if calls[k - 1].l != own && calls[k - 1].a == a && calls[k - 1].Wait? then Some(calls[k - 1].l)
    else if calls[k - 1].l != own && calls[k - 1].a == a && calls[k - 1].Acquire? then None
    else Pending(calls, own, k - 1, a)
  }

  /** The actor that holds lockable `l` after the first `k` calls: the one of its last acquire, unless it has
      been released since. */
  function Holder(calls: seq<Call>, own: Lockable, k: nat, l: Lockable): Option<Actor>
    requires k <= |calls|
    decreases k
  {
    if k == 0 || l == own then None
    else if calls[k - 1].l == l && calls[k - 1].Acquire? then Some(calls[k - 1].a)
    else if calls[k - 1].l == l && calls[k - 1].Release? then None
    else Holder(calls, own, k - 1, l)
  }

  /** The graph records exactly the calls made. */
  lemma {:induction false} HistoryExact(states: seq<Graph>, calls: seq<Call>, k: nat)
    requires IsRun(states, calls) && k <= |calls|
    ensures
      var (g, own) := (states[k], states[0].own);
      && g.own == own && |g.waiting| == |states[0].waiting| && |g.holding| == |states[0].holding|
      && (forall a: Actor :: a < |g.waiting| ==> g.waiting[a] == Pending(calls, own, k, a))
      && (forall l: Lockable :: l < |g.holding| ==> g.holding[l] == Holder(calls, own, k, l))
    decreases k
  {
    if k > 0 {
      HistoryExact(states, calls, k - 1);
      assert Step(states[k - 1], calls[k - 1]) == Done(states[k]);
      HolderOfOwn(calls, states[0].own, k);
    }
  }

  lemma HolderOfOwn(calls: seq<Call>, own: Lockable, k: nat)
    requires k <= |calls|
    ensures Holder(calls, own, k, own).None?
  {
  }

  /** After the calls made, actor `a` waits for something actor `b` holds. */
  ghost predicate WaitsFor(calls: seq<Call>, own: Lockable, a: Actor, b: Actor) {
    var l := Pending(calls, own, |calls|, a);
    l.Some? && Holder(calls, own, |calls|, l.value) == Some(b)
  }

  /** Each actor in the sequence waits for the one after it. */
  ghost predicate Chain(calls: seq<Call>, own: Lockable, c: seq<Actor>) {
    forall i :: 0 <= i < |c| - 1 ==> WaitsFor(calls, own, c[i], c[i + 1])
  }

  /** Actors wait for each other in a circle. */
  ghost predicate Circular(calls: seq<Call>, own: Lockable) {
    exists c: seq<Actor> :: |c| >= 2 && c[0] == c[|c| - 1] && Chain(calls, own, c)
  }

  /** The graph is the one of these calls. */
  ghost predicate Records(g: Graph, calls: seq<Call>) {
    && (forall a: Actor :: a < |g.waiting| ==> g.waiting[a] == Pending(calls, g.own, |calls|, a))
    && (forall a: Actor :: a >= |g.waiting| ==> Pending(calls, g.own, |calls|, a).None?)
    && (forall l: Lockable :: l < |g.holding| ==> g.holding[l] == Holder(calls, g.own, |calls|, l))
  }

  lemma NextIsWaitsFor(g: Graph, calls: seq<Call>, a: Actor, b: Actor)
    requires Wf(g) && Records(g, calls)
    ensures Next(g, a) == Some(b) <==> WaitsFor(calls, g.own, a, b)
  {
    if a < |g.waiting| { assert g.waiting[a] == Pending(calls, g.own, |calls|, a); }
  }

  lemma {:induction false} WalkIsChain(g: Graph, calls: seq<Call>, a: Actor, n: nat) returns (c: seq<Actor>)
    requires Wf(g) && Records(g, calls) && Walk(g, a, n).Some?
    ensures |c| == n + 1 && c[0] == a && c[n] == Walk(g, a, n).value && Chain(calls, g.own, c)
    decreases n
  {
    if n == 0 {
      c := [a];
    } else {
      var b := Next(g, a).value;
      NextIsWaitsFor(g, calls, a, b);
      var rest := WalkIsChain(g, calls, b, n - 1);
      c := [a] + rest;
      forall i | 0 <= i < |c| - 1
        ensures WaitsFor(calls, g.own, c[i], c[i + 1])
      {
        if i > 0 { assert WaitsFor(calls, g.own, rest[i - 1], rest[i]); }
      }
    }
  }

  lemma {:induction false} ChainIsWalk(g: Graph, calls: seq<Call>, c: seq<Actor>)
    requires Wf(g) && Records(g, calls) && c != [] && Chain(calls, g.own, c)
    ensures Walk(g, c[0], |c| - 1) == Some(c[|c| - 1])
    decreases |c|
  {
    if |c| > 1 {
      assert WaitsFor(calls, g.own, c[0], c[0 + 1]);
      NextIsWaitsFor(g, calls, c[0], c[1]);
      forall i | 0 <= i < |c[1..]| - 1
        ensures WaitsFor(calls, g.own, c[1..][i], c[1..][i + 1])
      {
        assert WaitsFor(calls, g.own, c[i + 1], c[i + 1 + 1]);
      }
      ChainIsWalk(g, calls, c[1..]);
    }
  }

  /** A graph has a cycle exactly when the calls it records leave actors waiting in a circle. */
  lemma CycleIsCircle(g: Graph, calls: seq<Call>)
    requires Wf(g) && Records(g, calls)
    ensures Acyclic(g) <==> !Circular(calls, g.own)
  {
    if !Acyclic(g) {
      var a: Actor, n: nat :| n > 0 && Walk(g, a, n) == Some(a);
      var c := WalkIsChain(g, calls, a, n);
      assert Circular(calls, g.own);
    }
    if Circular(calls, g.own) {
      var c: seq<Actor> :| |c| >= 2 && c[0] == c[|c| - 1] && Chain(calls, g.own, c);
      ChainIsWalk(g, calls, c);
    }
  }

  lemma {:induction false} NobodyElse(states: seq<Graph>, calls: seq<Call>, k: nat, a: Actor)
    requires IsRun(states, calls) && k <= |calls| && a >= |states[0].waiting|
    ensures Pending(calls, states[0].own, k, a).None?
    decreases k
  {
    if k > 0 {
      HistoryExact(states, calls, k - 1);
      assert calls[k - 1].a < |states[k - 1].waiting|;
      NobodyElse(states, calls, k - 1, a);
    }
  }

  lemma RunRecords(states: seq<Graph>, calls: seq<Call>)
    requires IsRun(states, calls)
    ensures states[|calls|].own == states[0].own && Records(states[|calls|], calls)
  {
    HistoryExact(states, calls, |calls|);
    forall a: Actor | a >= |states[0].waiting|
      ensures Pending(calls, states[0].own, |calls|, a).None?
    {
      NobodyElse(states, calls, |calls|, a);
    }
  }

  lemma {:induction false} PendingPrefix(calls: seq<Call>, c: Call, own: Lockable, k: nat, a: Actor)
    requires k <= |calls|
    ensures Pending(calls + [c], own, k, a) == Pending(calls, own, k, a)
    decreases k
  {
    if k > 0 { PendingPrefix(calls, c, own, k - 1, a); }
  }

  lemma {:induction false} HolderPrefix(calls: seq<Call>, c: Call, own: Lockable, k: nat, l: Lockable)
    requires k <= |calls|
    ensures Holder(calls + [c], own, k, l) == Holder(calls, own, k, l)
    decreases k
  {
    if k > 0 { HolderPrefix(calls, c, own, k - 1, l); }
  }

  /** One more wait is recorded as an edge. */
  lemma WaitRecorded(g: Graph, calls: seq<Call>, a: Actor, l: Lockable)
    requires Records(g, calls) && a < |g.waiting| && l != g.own
    ensures Records(Waits(g, a, l), calls + [Wait(a, l)])
  {
    var more := calls + [Wait(a, l)];
    forall b: Actor
      ensures Pending(more, g.own, |more|, b) == if b == a then Some(l) else Pending(calls, g.own, |calls|, b)
    {
      PendingPrefix(calls, Wait(a, l), g.own, |calls|, b);
    }
    forall m: Lockable
      ensures Holder(more, g.own, |more|, m) == Holder(calls, g.own, |calls|, m)
    {
      HolderPrefix(calls, Wait(a, l), g.own, |calls|, m);
    }
  }

  /** After every sequence of calls that all passed, no actors wait for each other in a circle, and an actor
      that starts to wait is told of a deadlock exactly when its wait would make them. */
  lemma DeadlockExact(states: seq<Graph>, calls: seq<Call>, a: Actor, l: Lockable)
    requires IsRun(states, calls)
    requires var g := states[|calls|]; a < |g.waiting| && l < |g.holding| && l != g.own
    ensures
      var (g, own) := (states[|calls|], states[|calls|].own);
      && !Circular(calls, own)
      && (Step(g, Wait(a, l)).Panic? <==> Pending(calls, own, |calls|, a).Some?)
      && (Step(g, Wait(a, l)).Deadlock? <==>
            Pending(calls, own, |calls|, a).None? && Circular(calls + [Wait(a, l)], own))
  {
    var g := states[|calls|];
    RunInv(states, calls, |calls|);
    RunRecords(states, calls);
    CycleIsCircle(g, calls);
    if g.waiting[a].None? {
      WaitCloses(g, a, l);
      WaitRecorded(g, calls, a, l);
      CycleIsCircle(Waits(g, a, l), calls + [Wait(a, l)]);
    }
  }

  /** An acquire passes exactly when the actor waits for the lockable and nobody holds it, a release exactly
      when the actor holds it and waits for nothing; calls about the detector's own lockable pass always. */
  lemma PanicsExact(states: seq<Graph>, calls: seq<Call>, a: Actor, l: Lockable)
    requires IsRun(states, calls)
    requires var g := states[|calls|]; a < |g.waiting| && l < |g.holding|
    ensures
      var (g, own, k) := (states[|calls|], states[|calls|].own, |calls|);
      && (Step(g, Acquire(a, l)).Done? <==>
            l == own || (Pending(calls, own, k, a) == Some(l) && Holder(calls, own, k, l).None?))
      && (Step(g, Release(a, l)).Done? <==>
            l == own || (Pending(calls, own, k, a).None? && Holder(calls, own, k, l) == Some(a)))
      && (l == own ==> Step(g, Wait(a, l)).Done?)
  {
    RunRecords(states, calls);
  }

  // --------------------------------------------------------------------- the detector

  /** Places along a walk of an acyclic graph are all different. */
  lemma WalkDistinct(g: Graph, x: Actor, i: nat, j: nat)
    requires Acyclic(g) && i < j && Walk(g, x, j).Some?
    ensures Walk(g, x, i).Some? && Walk(g, x, i) != Walk(g, x, j)
  {
    WalkAdd(g, x, i, j - i);
  }

  class Detector {
    const waiting: array<Option<Lockable>>
    const holding: array<Option<Actor>>
    const own: Lockable

    ghost function Value(): Graph
      reads waiting, holding
    {
      Graph(waiting[..], holding[..], own)
    }

    ghost predicate Valid()
      reads waiting, holding
    {
      waiting as object != holding && Wf(Value()) && Acyclic(Value())
    }

    constructor (actors: nat, lockables: nat, self: Lockable)
      ensures Valid() && waiting.Length == actors && holding.Length == lockables && own == self
      ensures forall a :: 0 <= a < actors ==> waiting[a].None?
      ensures forall l :: 0 <= l < lockables ==> holding[l].None?
      ensures fresh(waiting) && fresh(holding)
    {
      waiting := new Option<Lockable>[actors](_ => None);
      holding := new Option<Actor>[lockables](_ => None);
      own := self;
    }

    /** `hangman_check`: follows the edges from the holder of `start`; the walk ends. */
    method Check(start: Lockable, target: Actor) returns (found: bool)
      requires Valid() && start < holding.Length
      ensures found <==> Reaches(Value(), start, target)
    {
      ghost var g := Value();
      var cur := holding[start];
      if cur.None? {
        return false;
      }
      ghost var first := cur.value;
      ghost var visited: seq<nat> := [];
      while cur.Some?
        invariant cur == Walk(g, first, |visited|)
        invariant forall i: nat :: i < |visited| ==> Walk(g, first, i) == Some(visited[i]) && visited[i] != target
        invariant forall i :: 0 <= i < |visited| ==> visited[i] < waiting.Length
        invariant |visited| <= waiting.Length
        decreases waiting.Length - |visited|
      {
        assert Walk(g, first, |visited|) == cur;
        if cur.value == target {
          return true;
        }
        Visit(g, first, visited, cur.value);
        visited := visited + [cur.value];
        WalkAdd(g, first, |visited| - 1, 1);
        WalkOne(g, cur.value);
        if waiting[cur.value].None? {
          cur := None;
        } else {
          cur := holding[waiting[cur.value].value];
        }
      }
      NotReached(g, first, visited, target);
      return false;
    }

    /** `hangman_wait`. */
    method Wait(a: Actor, l: Lockable) returns (r: Outcome)
      requires Valid() && a < waiting.Length && l < holding.Length
      modifies waiting
      ensures r == Step(old(Value()), Call.Wait(a, l))
      ensures r.Done? ==> Valid() && r.g == Value()
    {
      StepKeeps(Value(), Call.Wait(a, l));
      if l == own {
        return Done(Graph(waiting[..], holding[..], own));
      }
      if waiting[a].Some? {
        return Outcome.Panic;
      }
      var found := Check(l, a);
      if found {
        return Deadlock;
      }
      waiting[a] := Some(l);
      assert waiting[..] == old(waiting[..])[a := Some(l)];
      return Done(Graph(waiting[..], holding[..], own));
    }

    /** `hangman_acquire`. */
    method Acquire(a: Actor, l: Lockable) returns (r: Outcome)
      requires Valid() && a < waiting.Length && l < holding.Length
      modifies waiting, holding
      ensures r == Step(old(Value()), Call.Acquire(a, l))
      ensures r.Done? ==> Valid() && r.g == Value()
    {
      StepKeeps(Value(), Call.Acquire(a, l));
      if l == own {
        return Done(Graph(waiting[..], holding[..], own));
      }
      if waiting[a] != Some(l) || holding[l].Some? {
        return Outcome.Panic;
      }
      holding[l] := Some(a);
      waiting[a] := None;
      assert Value() == Acquires(old(Value()), a, l);
      return Done(Graph(waiting[..], holding[..], own));
    }

    /** `hangman_release`. */
    method Release(a: Actor, l: Lockable) returns (r: Outcome)
      requires Valid() && a < waiting.Length && l < holding.Length
      modifies holding
      ensures r == Step(old(Value()), Call.Release(a, l))
      ensures r.Done? ==> Valid() && r.g == Value()
    {
      StepKeeps(Value(), Call.Release(a, l));
      if l == own {
        return Done(Graph(waiting[..], holding[..], own));
      }
      if waiting[a].Some? || holding[l] != Some(a) {
        return Outcome.Panic;
      }
      holding[l] := None;
      assert holding[..] == old(holding[..])[l := None];
      return Done(Graph(waiting[..], holding[..], own));
    }
  }

  /** A place not visited before leaves room: the visited places stay fewer than the actors. */
  lemma Visit(g: Graph, first: Actor, visited: seq<nat>, cur: Actor)
    requires Wf(g) && Acyclic(g) && first < |g.waiting|
    requires forall i: nat :: i < |visited| ==> Walk(g, first, i) == Some(visited[i])
    requires forall i :: 0 <= i < |visited| ==> visited[i] < |g.waiting|
    requires Walk(g, first, |visited|) == Some(cur)
    ensures cur < |g.waiting| && |visited| < |g.waiting|
  {
    WalkInRange(g, first, |visited|);
    var all := visited + [cur];
    forall i, j | 0 <= i < j < |all|
      ensures all[i] != all[j]
    {
      assert Walk(g, first, i) == Some(all[i]) && Walk(g, first, j) == Some(all[j]);
      WalkDistinct(g, first, i, j);
    }
    Pigeonhole(all, |g.waiting|);
  }

  lemma {:induction false} WalkInRange(g: Graph, x: Actor, n: nat)
    requires Wf(g) && x < |g.waiting|
    ensures Walk(g, x, n).Some? ==> Walk(g, x, n).value < |g.waiting|
    decreases n
  {
    if n > 0 && Next(g, x).Some? {
      WalkInRange(g, Next(g, x).value, n - 1);
    }
  }

  /** A walk that has ended has visited every place it could reach. */
  lemma NotReached(g: Graph, first: Actor, visited: seq<nat>, target: Actor)
    requires forall i: nat :: i < |visited| ==> Walk(g, first, i) == Some(visited[i]) && visited[i] != target
    requires Walk(g, first, |visited|).None?
    ensures forall n: nat :: Walk(g, first, n) != Some(target)
  {
    forall n: nat
      ensures Walk(g, first, n) != Some(target)
    {
      if n >= |visited| { WalkAdd(g, first, |visited|, n - |visited|); }
    }
  }
}
