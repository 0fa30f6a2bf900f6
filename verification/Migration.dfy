/** Moving threads from this processor's run queue to shorter ones. */
module Migration {
  import opened Common

  type Thread = nat
  type Queues = seq<seq<Thread>>

  // ---------------------------------------------------------------- counting threads

  /** The number of threads on the queues from `k` on. */
  function Total(q: Queues, k: nat): nat
    requires k <= |q|
    decreases |q| - k
  {
    if k == |q| then 0 else |q[k]| + Total(q, k + 1)
  }

  /** All threads on the queues from `k` on. */
  ghost function Threads(q: Queues, k: nat): multiset<Thread>
    requires k <= |q|
    decreases |q| - k
  {
    if k == |q| then multiset{} else multiset(q[k]) + Threads(q, k + 1)
  }

  ghost function AllThreads(q: Queues): multiset<Thread> {
    Threads(q, 0)
  }

  /** The number counted is the number of threads there are. */
  lemma {:induction false} TotalCounts(q: Queues, k: nat)
    requires k <= |q|
    ensures Total(q, k) == |Threads(q, k)|
    decreases |q| - k
  {
    if k < |q| { TotalCounts(q, k + 1); }
  }

  lemma {:induction false} ThreadsUpdate(q: Queues, k: nat, i: nat, s: seq<Thread>)
    requires k <= |q| && i < |q|
    ensures k <= i ==> Threads(q[i := s], k) + multiset(q[i]) == Threads(q, k) + multiset(s)
    ensures i < k ==> Threads(q[i := s], k) == Threads(q, k)
    decreases |q| - k
  {
    if k < |q| {
      ThreadsUpdate(q, k + 1, i, s);
      var q' := q[i := s];
      if k < i {
        assert Threads(q', k) + multiset(q[i]) == multiset(q[k]) + (Threads(q', k + 1) + multiset(q[i]));
        assert Threads(q, k) + multiset(s) == multiset(q[k]) + (Threads(q, k + 1) + multiset(s));
      } else if k == i {
        assert Threads(q', k) == multiset(s) + Threads(q, k + 1);
      }
    }
  }

  /** How many threads the queues from `k` on, other than `me`'s, can take before they are at `share`. */
  function Room(q: Queues, me: nat, share: nat, k: nat): nat
    requires k <= |q|
    decreases |q| - k
  {
    if k == |q| then 0
    else (if k == me || |q[k]| >= share then 0 else share - |q[k]|) + Room(q, me, share, k + 1)
  }

  lemma {:induction false} RoomFor(q: Queues, me: nat, share: nat, k: nat)
    requires k <= |q| && me < |q| && share <= |q[me]|
    ensures Room(q, me, share, k) + (if k <= me then share - |q[me]| else 0) >= share * (|q| - k) - Total(q, k)
    decreases |q| - k
  {
    if k < |q| {
      RoomFor(q, me, share, k + 1);
      assert share * (|q| - k) == share * (|q| - (k + 1)) + share;
    }
  }

  function Share(total: nat, n: nat): nat
    requires n > 0
  {
    (total + n - 1) / n
  }

  /** Rounded up, a share for each of `n` processors just covers all threads. */
  lemma ShareCovers(total: nat, n: nat)
    requires n > 0
    ensures Share(total, n) * n >= total
    ensures Share(total, n) > 0 ==> (Share(total, n) - 1) * n < total
  {
    var s := Share(total, n);
    assert total + n - 1 == s * n + (total + n - 1) % n;
  }

  /** The least number of threads for each processor with which there is a place for all. */
  ghost predicate FairShare(q: Queues, share: nat) {
    share * |q| >= |AllThreads(q)| && (share > 0 ==> (share - 1) * |q| < |AllThreads(q)|)
  }

  /** That is what is computed. */
  lemma ShareIsFair(q: Queues)
    requires q != []
    ensures FairShare(q, Share(Total(q, 0), |q|))
  {
    TotalCounts(q, 0);
    ShareCovers(|AllThreads(q)|, |q|);
  }

  lemma Times(i: nat, j: nat, n: nat)
    requires i <= j
    ensures i * n <= j * n
  {
  }

  /** There is only one. */
  lemma FairIsUnique(q: Queues, share: nat, share': nat)
    requires FairShare(q, share) && FairShare(q, share')
    ensures share == share'
  {
    if share < share' { Times(share, share' - 1, |q|); }
    if share' < share { Times(share', share - 1, |q|); }
  }

  /** The other processors have room for all that this one has too many. */
  lemma RoomEnough(q: Queues, me: nat)
    requires me < |q| && Share(Total(q, 0), |q|) <= |q[me]|
    ensures |q[me]| - Share(Total(q, 0), |q|) <= Room(q, me, Share(Total(q, 0), |q|), 0)
  {
    ShareCovers(Total(q, 0), |q|);
    RoomFor(q, me, Share(Total(q, 0), |q|), 0);
  }

  /** What is left of the victims after the first `m` have been dealt with: those not yet looked at, and
      the current thread if it was met. */
  function Left(v: seq<Thread>, m: nat, cur: Thread): seq<Thread>
    requires m <= |v|
  {
    v[m..] + if cur in v[..m] then [cur] else []
  }

  lemma LeftNext(v: seq<Thread>, m: nat, cur: Thread)
    requires m < |v| && Distinct(v)
    ensures Left(v, m, cur) != [] && Left(v, m, cur)[0] == v[m]
    ensures Left(v, m, cur)[1..] + (if v[m] == cur then [cur] else []) == Left(v, m + 1, cur)
  {
    assert v[..m + 1] == v[..m] + [v[m]];
    assert v[m..] == [v[m]] + v[m + 1..];
  }

  ghost predicate Homed(q: seq<Thread>, cpuOf: map<Thread, nat>, i: nat) {
    forall t :: t in q ==> t in cpuOf && cpuOf[t] == i
  }

  /** No queue lists a thread twice, and every queued thread is on its own processor's queue. */
  ghost predicate Queued(q: Queues, cpuOf: map<Thread, nat>) {
    forall i :: 0 <= i < |q| ==> Distinct(q[i]) && Homed(q[i], cpuOf, i)
  }

  /** No thread is lost or duplicated; the other queues keep what they had and none grows past the
      larger of its old length and the fair share; this queue keeps its first `share` threads, and besides
      them only the current thread, which never leaves. */
  ghost predicate Balanced(q: Queues, q': Queues, me: nat, cur: Thread, share: nat) {
    && |q'| == |q| && me < |q| && AllThreads(q') == AllThreads(q)
    && (cur in q[me] ==> cur in q'[me])
    && (forall i :: 0 <= i < |q| && i != me ==> q[i] <= q'[i] && |q'[i]| <= Max(|q[i]|, share))
    && if |q[me]| < share then q' == q
       else q'[me] == q[me][..share] + if cur in q[me][share..] then [cur] else []
  }

  /** A queue that took in threads at its end without growing past the share. */
  ghost predicate Grown(q0: seq<Thread>, q: seq<Thread>, cpuOf: map<Thread, nat>, i: nat, share: nat) {
    q0 <= q && |q| <= Max(|q0|, share) && Distinct(q) && Homed(q, cpuOf, i)
  }

  /** The queues `q0` and the victims `v` after the first `m` victims have been dealt with. */
  ghost predicate Progress(q0: Queues, q: Queues, cpuOf: map<Thread, nat>, v: seq<Thread>, m: nat,
                           me: nat, cur: Thread, share: nat)
  {
    && |q| == |q0| && me < |q| && m <= |v|
    && q[me] == q0[me] && Homed(q[me], cpuOf, me) && Homed(Left(v, m, cur), cpuOf, me)
    && (forall i :: 0 <= i < |q| && i != me ==> Grown(q0[i], q[i], cpuOf, i, share))
    && AllThreads(q) + multiset(Left(v, m, cur)) == AllThreads(q0) + multiset(v)
  }

  /** A victim that is the current thread goes to the end of the victims. */
  lemma SkipCurrent(q0: Queues, q: Queues, cpuOf: map<Thread, nat>, v: seq<Thread>, m: nat,
                    me: nat, cur: Thread, share: nat)
    requires Progress(q0, q, cpuOf, v, m, me, cur, share) && Distinct(v) && m < |v| && v[m] == cur
    ensures Progress(q0, q, cpuOf, v, m + 1, me, cur, share)
  {
    LeftNext(v, m, cur);
    var left := Left(v, m, cur);
    assert left == [cur] + left[1..];
  }

  /** Any other victim joins the queue of a processor below its share. */
  lemma MoveVictim(q0: Queues, q: Queues, cpuOf: map<Thread, nat>, v: seq<Thread>, m: nat,
                   me: nat, cur: Thread, share: nat, c: nat)
    requires Progress(q0, q, cpuOf, v, m, me, cur, share) && Distinct(q0[me] + v) && m < |v| && v[m] != cur
    requires c < |q| && c != me && |q[c]| < share
    ensures Progress(q0, q[c := q[c] + [v[m]]], cpuOf[v[m] := c], v, m + 1, me, cur, share)
  {
    var t, q', cpuOf' := v[m], q[c := q[c] + [v[m]]], cpuOf[v[m] := c];
    DistinctParts(q0[me], v);
    LeftNext(v, m, cur);
    LeftHome(v, m, cur, cpuOf, me, c);
    assert t !in q0[me] by { assert v[m] in v; }
    assert t in cpuOf && cpuOf[t] == me by { assert Left(v, m, cur)[0] in Left(v, m, cur); }
    forall i: nat | i < |q'| && i != me
      ensures Grown(q0[i], q'[i], cpuOf', i, share)
    {
      assert Grown(q0[i], q[i], cpuOf, i, share);
      GrownNext(q0[i], q[i], cpuOf, i, share, t, c, me);
    }
    MoveThreads(q, c, t, Left(v, m, cur));
  }

  /** One turn of the placement loop. */
  lemma PlaceOne(q0: Queues, q: Queues, cpuOf: map<Thread, nat>, v: seq<Thread>, m: nat,
                 me: nat, cur: Thread, share: nat, c: nat)
    requires Progress(q0, q, cpuOf, v, m, me, cur, share) && Distinct(q0[me] + v) && m < |v|
    requires c < |q| && c != me && |q[c]| < share
    ensures Left(v, m, cur) != [] && Left(v, m, cur)[0] == v[m]
    ensures Left(v, m, cur)[1..] + (if v[m] == cur then [cur] else []) == Left(v, m + 1, cur)
    ensures v[m] == cur ==> Progress(q0, q, cpuOf, v, m + 1, me, cur, share)
    ensures v[m] != cur ==> Progress(q0, q[c := q[c] + [v[m]]], cpuOf[v[m] := c], v, m + 1, me, cur, share)
  {
    DistinctParts(q0[me], v);
    LeftNext(v, m, cur);
    if v[m] == cur {
      SkipCurrent(q0, q, cpuOf, v, m, me, cur, share);
    } else {
      MoveVictim(q0, q, cpuOf, v, m, me, cur, share, c);
    }
  }

  lemma MoveThreads(q: Queues, c: nat, t: Thread, left: seq<Thread>)
    requires c < |q| && left != [] && left[0] == t
    ensures AllThreads(q[c := q[c] + [t]]) + multiset(left[1..]) == AllThreads(q) + multiset(left)
  {
    ThreadsUpdate(q, 0, c, q[c] + [t]);
    OneMoved(AllThreads(q), AllThreads(q[c := q[c] + [t]]), q[c], t, left[1..]);
    assert left == [t] + left[1..];
  }

  /** A thread from elsewhere joins queue `c`; queue `i` grows if it is that one and stays otherwise. */
  lemma GrownNext(s0: seq<Thread>, s: seq<Thread>, cpuOf: map<Thread, nat>, i: nat, share: nat,
                  t: Thread, c: nat, me: nat)
    requires Grown(s0, s, cpuOf, i, share) && t in cpuOf && cpuOf[t] == me && i != me
    requires i == c ==> |s| < share
    ensures Grown(s0, if i == c then s + [t] else s, cpuOf[t := c], i, share)
  {
    assert t !in s;
  }

  lemma OneMoved(a: multiset<Thread>, a': multiset<Thread>, s: seq<Thread>, t: Thread, rest: seq<Thread>)
    requires a' + multiset(s) == a + multiset(s + [t])
    ensures a' + multiset(rest) == a + multiset([t] + rest)
  {
    assert multiset(s + [t]) == multiset(s) + multiset{t};
    assert multiset([t] + rest) == multiset{t} + multiset(rest);
    assert (a + multiset{t}) + multiset(s) == a' + multiset(s);
    assert a' == a + multiset{t} by {
      forall x
        ensures a'[x] == (a + multiset{t})[x]
      {
        assert (a' + multiset(s))[x] == a'[x] + multiset(s)[x];
      }
    }
  }

  lemma DistinctParts(a: seq<Thread>, b: seq<Thread>)
    requires Distinct(a + b)
    ensures Distinct(a) && Distinct(b)
    ensures forall x :: x in b ==> x !in a
  {
    forall i, j | 0 <= i < j < |b|
      ensures b[i] != b[j]
    {
      assert (a + b)[|a| + i] != (a + b)[|a| + j];
    }
    forall i, j | 0 <= i < |a| && 0 <= j < |b|
      ensures a[i] != b[j]
    {
      assert (a + b)[i] != (a + b)[|a| + j];
    }
    forall i, j | 0 <= i < j < |a|
      ensures a[i] != a[j]
    {
      assert (a + b)[i] != (a + b)[j];
    }
  }

  lemma LeftHome(v: seq<Thread>, m: nat, cur: Thread, cpuOf: map<Thread, nat>, me: nat, c: nat)
    requires m < |v| && Distinct(v) && v[m] != cur && Homed(Left(v, m, cur), cpuOf, me)
    ensures Homed(Left(v, m + 1, cur), cpuOf[v[m] := c], me)
  {
    LeftNext(v, m, cur);
    forall t | t in Left(v, m + 1, cur)
      ensures t in Left(v, m, cur) && t != v[m]
    {
    }
  }

  // --------------------------------------------------------------------- the queues

  class Cpus {
    const runq: array<seq<Thread>>
    const me: nat
    const cur: Thread
    var cpuOf: map<Thread, nat>

    ghost predicate Valid()
      reads this, runq
    {
      me < runq.Length && Queued(runq[..], cpuOf)
    }

    constructor (queues: array<seq<Thread>>, self: nat, current: Thread, homes: map<Thread, nat>)
      requires self < queues.Length && Queued(queues[..], homes)
      ensures Valid() && runq == queues && me == self && cur == current && cpuOf == homes
    {
      runq, me, cur, cpuOf := queues, self, current, homes;
    }

    /** The first loop: how many threads there are, and how many here. */
    method CountThreads() returns (mine: nat, total: nat)
      requires Valid()
      ensures mine == |runq[me]| && total == Total(runq[..], 0) == |AllThreads(runq[..])|
    {
      TotalCounts(runq[..], 0);
      mine, total := 0, 0;
      var i := 0;
      while i < runq.Length
        invariant 0 <= i <= runq.Length
        invariant total + Total(runq[..], i) == Total(runq[..], 0)
        invariant i > me ==> mine == |runq[me]|
      {
        total := total + |runq[i]|;
        if i == me {
          mine := |runq[i]|;
        }
        i := i + 1;
      }
    }

    /** The second loop: takes threads off the end of this queue, keeping their order. */
    method TakeVictims(n: nat) returns (victims: seq<Thread>)
      requires Valid() && n <= |runq[me]|
      modifies runq
      ensures runq[..] == old(runq[..])[me := old(runq[me])[..old(|runq[me]|) - n]]
      ensures victims == old(runq[me])[old(|runq[me]|) - n..]
    {
      victims := [];
      var i := 0;
      ghost var q := runq[me];
      assert q[..|q|] == q;
      while i < n
        invariant 0 <= i <= n
        invariant runq[..] == old(runq[..])[me := q[..|q| - i]]
        invariant victims == q[|q| - i..]
      {
        var mine := runq[me];
        assert mine == q[..|q| - i] && mine != [];
        var t := mine[|mine| - 1];
        runq[me] := mine[..|mine| - 1];
        assert runq[me] == q[..|q| - (i + 1)];
        victims := [t] + victims;
        i := i + 1;
      }
    }

    /** One turn of the inner placement loop: the first victim joins the queue, or goes to the end of the
        victims if it is the current thread. */
    method PlaceNext(c: nat, share: nat, waiting: seq<Thread>, ghost q0: Queues, ghost v: seq<Thread>, ghost m: nat)
      returns (victims: seq<Thread>)
      requires c < runq.Length && c != me && |runq[c]| < share
      requires Progress(q0, runq[..], cpuOf, v, m, me, cur, share) && Distinct(q0[me] + v) && m < |v|
      requires waiting == Left(v, m, cur)
      modifies runq, `cpuOf
      ensures Progress(q0, runq[..], cpuOf, v, m + 1, me, cur, share) && victims == Left(v, m + 1, cur)
      ensures forall i :: 0 <= i < runq.Length && i != c ==> runq[i] == old(runq[i])
      ensures |runq[c]| <= old(|runq[c]|) + 1
      ensures cur in cpuOf <==> cur in old(cpuOf)
      ensures cur in cpuOf ==> cpuOf[cur] == old(cpuOf)[cur]
    {
      PlaceOne(q0, runq[..], cpuOf, v, m, me, cur, share, c);
      var t := waiting[0];
      victims := waiting[1..];
      if t == cur {
        victims := victims + [t];
      } else {
        cpuOf := cpuOf[t := c];
        runq[c] := runq[c] + [t];
        assert runq[..] == old(runq[..])[c := old(runq[..])[c] + [t]];
      }
    }

    /** The inner placement loop: fills one queue up to the share. There is always a victim to take. */
    method FillQueue(c: nat, share: nat, left: nat, waiting: seq<Thread>,
                     ghost q0: Queues, ghost v: seq<Thread>, ghost m0: nat)
      returns (toSend: nat, victims: seq<Thread>, ghost m: nat)
      requires c < runq.Length && c != me && Progress(q0, runq[..], cpuOf, v, m0, me, cur, share)
      requires Distinct(q0[me] + v) && left == |v| - m0 && waiting == Left(v, m0, cur)
      modifies runq, `cpuOf
      ensures Progress(q0, runq[..], cpuOf, v, m, me, cur, share)
      ensures toSend == |v| - m && victims == Left(v, m, cur)
      ensures forall i :: 0 <= i < runq.Length && i != c ==> runq[i] == old(runq[i])
      ensures toSend == 0 || (|runq[c]| >= share && m - m0 >= |runq[c]| - old(|runq[c]|))
      ensures cur in cpuOf <==> cur in old(cpuOf)
      ensures cur in cpuOf ==> cpuOf[cur] == old(cpuOf)[cur]
    {
      toSend, victims, m := left, waiting, m0;
      while |runq[c]| < share && toSend > 0
        invariant m0 <= m && Progress(q0, runq[..], cpuOf, v, m, me, cur, share)
        invariant toSend == |v| - m && victims == Left(v, m, cur)
        invariant forall i :: 0 <= i < runq.Length && i != c ==> runq[i] == old(runq[i])
        invariant m - m0 >= |runq[c]| - old(|runq[c]|)
        invariant cur in cpuOf <==> cur in old(cpuOf)
        invariant cur in cpuOf ==> cpuOf[cur] == old(cpuOf)[cur]
        decreases toSend
      {
        victims := PlaceNext(c, share, victims, q0, v, m);
        toSend, m := toSend - 1, m + 1;
      }
    }

    /** The outer placement loop: every victim is dealt with. */
    method PlaceVictims(share: nat, v: seq<Thread>, ghost q0: Queues) returns (victims: seq<Thread>)
      requires me < runq.Length && q0 == runq[..] && Progress(q0, runq[..], cpuOf, v, 0, me, cur, share)
      requires Distinct(q0[me] + v) && |v| <= Room(q0, me, share, 0)
      modifies runq, `cpuOf
      ensures Progress(q0, runq[..], cpuOf, v, |v|, me, cur, share)
      ensures victims == if cur in v then [cur] else []
      ensures cur in cpuOf <==> cur in old(cpuOf)
      ensures cur in cpuOf ==> cpuOf[cur] == old(cpuOf)[cur]
    {
      victims := v;
      var toSend := |v|;
      ghost var m := 0;
      assert v == Left(v, 0, cur);
      var i := 0;
      while i < runq.Length && toSend > 0
        invariant 0 <= i <= runq.Length && Progress(q0, runq[..], cpuOf, v, m, me, cur, share)
        invariant toSend == |v| - m && victims == Left(v, m, cur)
        invariant toSend <= Room(q0, me, share, i)
        invariant forall j :: i <= j < runq.Length ==> runq[j] == q0[j]
        invariant cur in cpuOf <==> cur in old(cpuOf)
        invariant cur in cpuOf ==> cpuOf[cur] == old(cpuOf)[cur]
      {
        if i != me {
          toSend, victims, m := FillQueue(i, share, toSend, victims, q0, v, m);
        }
        i := i + 1;
      }
      assert v[..|v|] == v && v[|v|..] == [];
    }

    /** The last loop: leftovers go back on this queue. */
    method PutBack(left: seq<Thread>)
      requires me < runq.Length
      modifies runq
      ensures runq[..] == old(runq[..])[me := old(runq[me]) + left]
    {
      var victims := left;
      ghost var i := 0;
      assert old(runq[me]) + left[..0] == runq[me];
      while victims != []
        invariant 0 <= i <= |left| && victims == left[i..]
        invariant runq[..] == old(runq[..])[me := old(runq[me]) + left[..i]]
        decreases |victims|
      {
        runq[me] := runq[me] + [victims[0]];
        assert runq[me] == old(runq[me]) + left[..i + 1];
        victims := victims[1..];
        i := i + 1;
      }
      assert left[..i] == left;
    }

    /** `thread_consider_migration`, run with no other processor acting. */
    method ConsiderMigration() returns (ghost fair: nat)
      requires Valid()
      modifies runq, `cpuOf
      ensures FairShare(old(runq[..]), fair)
      ensures Valid() && Balanced(old(runq[..]), runq[..], me, cur, fair)
      ensures cur in cpuOf <==> cur in old(cpuOf)
      ensures cur in cpuOf ==> cpuOf[cur] == old(cpuOf)[cur]
    {
      var mine, total := CountThreads();
      var share := Share(total, runq.Length);
      ShareIsFair(runq[..]);
      fair := share;
      if mine < share {
        return;
      }
      RoomEnough(runq[..], me);
      Migrate(mine - share, share);
    }

    /** The rest of it, when there are `toSend` threads too many here. */
    method Migrate(toSend: nat, share: nat)
      requires Valid() && toSend + share == |runq[me]| && toSend <= Room(runq[..], me, share, 0)
      modifies runq, `cpuOf
      ensures Valid() && Balanced(old(runq[..]), runq[..], me, cur, share)
      ensures cur in cpuOf <==> cur in old(cpuOf)
      ensures cur in cpuOf ==> cpuOf[cur] == old(cpuOf)[cur]
    {
      ghost var q := runq[..];
      var v := TakeVictims(toSend);
      ghost var q0 := runq[..];
      Taken(q, q0, cpuOf, v, me, cur, share);
      var left := PlaceVictims(share, v, q0);
      ghost var q1 := runq[..];
      PutBack(left);
      Settled(q, q0, q1, runq[..], cpuOf, v, left, me, cur, share);
    }
  }

  /** The victims taken off the end of this queue. */
  lemma Taken(q: Queues, q0: Queues, cpuOf: map<Thread, nat>, v: seq<Thread>, me: nat, cur: Thread, share: nat)
    requires me < |q| && share <= |q[me]| && q0 == q[me := q[me][..share]] && v == q[me][share..]
    requires Queued(q, cpuOf) && |v| <= Room(q, me, share, 0)
    ensures Progress(q0, q0, cpuOf, v, 0, me, cur, share) && Distinct(q0[me] + v) && |v| <= Room(q0, me, share, 0)
    ensures AllThreads(q0) + multiset(v) == AllThreads(q)
  {
    assert q0[me] + v == q[me];
    assert Left(v, 0, cur) == v;
    ThreadsUpdate(q, 0, me, q[me][..share]);
    SplitOff(AllThreads(q), AllThreads(q0), q[me], q0[me], v);
    SameRoom(q, me, share, q[me][..share], 0);
  }

  lemma SplitOff(a: multiset<Thread>, a': multiset<Thread>, s: seq<Thread>, kept: seq<Thread>, v: seq<Thread>)
    requires a' + multiset(s) == a + multiset(kept) && s == kept + v
    ensures a' + multiset(v) == a
  {
    assert multiset(s) == multiset(kept) + multiset(v);
    forall x
      ensures (a' + multiset(v))[x] == a[x]
    {
      assert (a' + multiset(s))[x] == (a + multiset(kept))[x];
    }
  }

  /** This queue's own length does not count for the room. */
  lemma {:induction false} SameRoom(q: Queues, me: nat, share: nat, s: seq<Thread>, k: nat)
    requires k <= |q| && me < |q|
    ensures Room(q[me := s], me, share, k) == Room(q, me, share, k)
    decreases |q| - k
  {
    if k < |q| { SameRoom(q, me, share, s, k + 1); }
  }

  /** The queues once the leftover is back. */
  lemma Settled(q: Queues, q0: Queues, q1: Queues, q2: Queues, cpuOf: map<Thread, nat>,
                v: seq<Thread>, left: seq<Thread>, me: nat, cur: Thread, share: nat)
    requires me < |q| && share <= |q[me]|
    requires q0 == q[me := q[me][..share]] && v == q[me][share..]
    requires Distinct(q[me]) && AllThreads(q0) + multiset(v) == AllThreads(q)
    requires Progress(q0, q1, cpuOf, v, |v|, me, cur, share) && left == if cur in v then [cur] else []
    requires q2 == q1[me := q1[me] + left]
    ensures Queued(q2, cpuOf) && Balanced(q, q2, me, cur, share)
  {
    SettledThreads(q0, q1, q2, v, left, me, cur);
    SettledMine(q[me], v, left, cpuOf, me, cur, share);
    assert q2[me] == q[me][..share] + left;
    forall i | 0 <= i < |q2| && i != me
      ensures Grown(q[i], q2[i], cpuOf, i, share)
    {
      assert Grown(q0[i], q1[i], cpuOf, i, share);
    }
  }

  lemma SettledThreads(q0: Queues, q1: Queues, q2: Queues, v: seq<Thread>, left: seq<Thread>, me: nat, cur: Thread)
    requires me < |q1| && q2 == q1[me := q1[me] + left] && left == if cur in v then [cur] else []
    requires AllThreads(q1) + multiset(Left(v, |v|, cur)) == AllThreads(q0) + multiset(v)
    ensures AllThreads(q2) == AllThreads(q0) + multiset(v)
  {
    LeftAll(v, cur);
    ThreadsUpdate(q1, 0, me, q1[me] + left);
    JoinBack(AllThreads(q1), AllThreads(q2), q1[me], left);
  }

  lemma LeftAll(v: seq<Thread>, cur: Thread)
    ensures Left(v, |v|, cur) == if cur in v then [cur] else []
  {
    assert v[..|v|] == v && v[|v|..] == [];
  }

  lemma SettledMine(mine: seq<Thread>, v: seq<Thread>, left: seq<Thread>, cpuOf: map<Thread, nat>, me: nat,
                    cur: Thread, share: nat)
    requires share <= |mine| && v == mine[share..] && Distinct(mine) && left == if cur in v then [cur] else []
    requires Homed(mine[..share], cpuOf, me) && Homed(Left(v, |v|, cur), cpuOf, me)
    ensures Distinct(mine[..share] + left) && Homed(mine[..share] + left, cpuOf, me)
    ensures cur in mine ==> cur in mine[..share] + left
  {
    LeftAll(v, cur);
    assert mine == mine[..share] + v;
    DistinctParts(mine[..share], v);
  }

  lemma JoinBack(a: multiset<Thread>, a': multiset<Thread>, s: seq<Thread>, left: seq<Thread>)
    requires a' + multiset(s) == a + multiset(s + left)
    ensures a' == a + multiset(left)
  {
    assert multiset(s + left) == multiset(s) + multiset(left);
    forall x
      ensures a'[x] == (a + multiset(left))[x]
    {
      assert (a' + multiset(s))[x] == (a + multiset(s + left))[x];
    }
  }
}
