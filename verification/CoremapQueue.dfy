/** FIFO replacement: the `next`/`prev` links of the coremap hold a queue of exactly the
    user frames, oldest first. */
module CoremapQueue {
  import opened Common
  import opened Coremap
  import opened CoremapBlocks

  /** `q` lists exactly the user frames, each once. */
  ghost predicate Members(es: seq<Entry>, q: seq<nat>) {
    && Distinct(q)
    && (forall i :: 0 <= i < |q| ==> q[i] < |es|)
    && (forall f {:trigger es[f].kind} :: 0 <= f < |es| ==> (es[f].kind.BusyUser? <==> f in q))
  }

  /** Neighbours in `q` point at each other. */
  ghost predicate Linked(es: seq<Entry>, q: seq<nat>)
    requires forall i :: 0 <= i < |q| ==> q[i] < |es|
  {
    && (forall i {:trigger es[q[i]].next} :: 0 <= i < |q| - 1 ==> es[q[i]].next == q[i + 1])
    && (forall i {:trigger es[q[i]].prev} :: 0 < i < |q| ==> es[q[i]].prev == q[i - 1])
  }

  /** Following `next` from the victim visits the frames of `q` in order and ends at the
      last allocated frame. The back link of the first frame is not constrained. */
  ghost predicate Queue(cm: Cm, q: seq<nat>) {
    && Members(cm.entries, q)
    && Linked(cm.entries, q)
    && (q == [] ==> cm.victim == cm.Invalid() && cm.last == cm.Invalid())
    && (q != [] ==> cm.victim == q[0] && cm.last == q[|q| - 1] && cm.entries[cm.last].next == cm.Invalid())
  }

  /** The first frame also says it has no predecessor: a full doubly linked list. */
  ghost predicate HeadClean(cm: Cm, q: seq<nat>)
    requires Queue(cm, q) && q != []
  {
    cm.entries[q[0]].prev == cm.Invalid()
  }

  // ------------------------------------------------------------- single operations

  /** A page that finds a frame joins the queue at its end. */
  lemma EnqueueAppends(cm: Cm, q: seq<nat>, a: SpaceId, va: nat)
    requires CmInv(cm) && Queue(cm, q)
    requires TakeUserFrame(cm, a, va).1 != 0
    ensures
      var (cm1, f) := TakeUserFrame(cm, a, va);
      && Enqueue(cm1, f, a, va).Ok?
      && var cm' := Enqueue(cm1, f, a, va).value;
      && Queue(cm', q + [f])
      && f !in q
      && (HeadClean(cm', q + [f]) <==> (q == [] || HeadClean(cm, q)))
  {
    TakeUserFrameBlocks(cm, a, va);
    var (cm1, f) := TakeUserFrame(cm, a, va);
    assert !cm.entries[f].kind.BusyUser?;
    EnqueueUnfolds(cm1, f, a, va);
    assert Appended(cm, Enqueue(cm1, f, a, va).value, f) by {
      AppendedFrom(cm, cm1, Enqueue(cm1, f, a, va).value, f);
    }
    AppendLinks(cm, Enqueue(cm1, f, a, va).value, q, f);
  }

  /** The links after frame `f` joined at the tail. */
  ghost predicate Appended(cm: Cm, cm': Cm, f: nat) {
    && f < |cm.entries| == |cm'.entries|
    && cm'.last == f && cm'.victim == (if cm.victim == cm.Invalid() then f else cm.victim)
    && cm'.entries[f].kind.BusyUser? && cm'.entries[f].next == cm.Invalid() && cm'.entries[f].prev == cm.last
    && forall g {:trigger cm'.entries[g]} :: 0 <= g < |cm.entries| && g != f ==>
      && (cm'.entries[g].kind.BusyUser? <==> cm.entries[g].kind.BusyUser?)
      && cm'.entries[g].next == (if g == cm.last then f else cm.entries[g].next)
      && cm'.entries[g].prev == cm.entries[g].prev
  }

  lemma EnqueueUnfolds(cm: Cm, f: nat, a: SpaceId, va: nat)
    requires f < |cm.entries| && cm.last <= cm.Invalid() && cm.last != f
    ensures Enqueue(cm, f, a, va).Ok? && Appended(cm, Enqueue(cm, f, a, va).value, f)
  {
  }

  lemma AppendedFrom(cm: Cm, cm1: Cm, cm': Cm, f: nat)
    requires Appended(cm1, cm', f) && |cm1.entries| == |cm.entries| && cm1.last == cm.last && cm1.victim == cm.victim
    requires SameMetaExcept(cm.entries, cm1.entries, f)
    requires forall i :: 0 <= i < |cm.entries| ==>
      cm1.entries[i].next == cm.entries[i].next && cm1.entries[i].prev == cm.entries[i].prev
    ensures Appended(cm, cm', f)
  {
    forall g | 0 <= g < |cm.entries| && g != f
      ensures cm'.entries[g].kind.BusyUser? <==> cm.entries[g].kind.BusyUser?
    {
      assert SameMeta(cm.entries[g], cm1.entries[g]);
    }
  }

  lemma AppendLinks(cm: Cm, cm': Cm, q: seq<nat>, f: nat)
    requires Queue(cm, q) && Appended(cm, cm', f) && !cm.entries[f].kind.BusyUser?
    ensures Queue(cm', q + [f]) && f !in q
    ensures HeadClean(cm', q + [f]) <==> (q == [] || HeadClean(cm, q))
  {
    assert q != [] ==> cm.last in q;
    assert forall i :: 0 <= i < |q| - 1 ==> q[i] != cm.last;
  }

  /** The links after frame `v` moved to the tail. */
  ghost predicate MovedToTail(cm: Cm, cm': Cm, v: nat) {
    && v < |cm.entries| == |cm'.entries|
    && cm'.last == v && cm'.victim == cm.entries[v].next
    && forall g {:trigger cm'.entries[g]} :: 0 <= g < |cm.entries| ==>
      && cm'.entries[g].kind == cm.entries[g].kind
      && cm'.entries[g].next == (if g == v then cm.Invalid() else if g == cm.last then v else cm.entries[g].next)
      && cm'.entries[g].prev == (if g == v then cm.last else cm.entries[g].prev)
  }

  /** Replacement succeeds exactly when two frames are queued, and sends the oldest frame
      to the end. Afterwards the new first frame keeps a stale back link. */
  lemma EvictRotates(cm: Cm, q: seq<nat>, a: SpaceId, va: nat)
    requires CmInv(cm) && Queue(cm, q)
    ensures Retarget(cm, a, va).Ok? <==> |q| >= 2
    ensures |q| >= 2 ==>
      var cm' := Retarget(cm, a, va).value;
      && Queue(cm', q[1..] + [q[0]])
      && !HeadClean(cm', q[1..] + [q[0]])
  {
    if |q| >= 2 {
      assert cm.victim in q;
      assert cm.entries[cm.victim].next == q[1];
      assert q[1] in q;
      RotateLinks(cm, Retarget(cm, a, va).value, q);
    } else if |q| == 1 {
      assert cm.victim == q[0] == cm.last;
    }
  }

  lemma RotateLinks(cm: Cm, cm': Cm, q: seq<nat>)
    requires Queue(cm, q) && |q| >= 2 && MovedToTail(cm, cm', q[0])
    ensures Queue(cm', q[1..] + [q[0]])
    ensures !HeadClean(cm', q[1..] + [q[0]])
  {
    var es, es' := cm.entries, cm'.entries;
    var q' := q[1..] + [q[0]];
    MembersRotate(cm, cm', q);
    forall i | 0 <= i < |q'| - 1
      ensures es'[q'[i]].next == q'[i + 1]
    {
      assert q'[i] == q[i + 1];
      assert i + 1 < |q| - 1 ==> es[q[i + 1]].next == q[i + 2];
    }
    forall i | 0 < i < |q'|
      ensures es'[q'[i]].prev == q'[i - 1]
    {
      assert i < |q'| - 1 ==> q'[i] == q[i + 1] && es[q[i + 1]].prev == q[i];
    }
    assert es[q[0]].next == q[1] && es[q[1]].prev == q[0];
  }

  lemma MembersRotate(cm: Cm, cm': Cm, q: seq<nat>)
    requires Members(cm.entries, q) && |q| >= 2 && MovedToTail(cm, cm', q[0])
    ensures Members(cm'.entries, q[1..] + [q[0]])
  {
    assert q == [q[0]] + q[1..];
  }

  /** The links after frame `f` was taken out between its own neighbours. */
  ghost predicate TakenOut(cm: Cm, cm': Cm, f: nat) {
    && f < |cm.entries| == |cm'.entries|
    && var (p, n) := (cm.entries[f].prev, cm.entries[f].next);
    && cm'.victim == (if p == cm.Invalid() then n else cm.victim)
    && cm'.last == (if n == cm.Invalid() then p else cm.last)
    && forall g {:trigger cm'.entries[g]} :: 0 <= g < |cm.entries| && g != f ==>
      && cm'.entries[g].next == (if g == p then n else cm.entries[g].next)
      && cm'.entries[g].prev == (if g == n then p else cm.entries[g].prev)
  }

  /** Whatever the links hold, `free_page_user` either fails an assertion or takes the frame
      out between the neighbours it names. */
  lemma FreeUserTakesOut(cm: Cm, f: nat)
    requires FreeUser(cm, f).Ok?
    ensures TakenOut(cm, FreeUser(cm, f).value, f)
  {
    var cm1 := Unlink(cm, f).value;
    var cm' := FreeUser(cm, f).value;
    forall g | 0 <= g < |cm.entries| && g != f
      ensures cm'.entries[g].next == cm1.entries[g].next && cm'.entries[g].prev == cm1.entries[g].prev
    {
    }
  }

  /** Which frees the queue survives, exactly: any frame but the victim, and the victim only
      while its back link is still empty. In the surviving case no assertion fails, exactly
      the freed frame leaves and the order of the rest is kept. */
  lemma FreeKeepsQueueIff(cm: Cm, q: seq<nat>, k: nat)
    requires CmInv(cm) && Queue(cm, q) && k < |q|
    ensures (k > 0 || HeadClean(cm, q)) ==>
      && FreeUser(cm, q[k]).Ok?
      && Queue(FreeUser(cm, q[k]).value, Without(q, k))
      && (|q| > 1 ==> (HeadClean(FreeUser(cm, q[k]).value, Without(q, k)) <==> HeadClean(cm, q)))
    ensures (k > 0 || HeadClean(cm, q)) <==>
      (FreeUser(cm, q[k]).Ok? && exists q' :: Queue(FreeUser(cm, q[k]).value, q'))
  {
    if k > 0 || HeadClean(cm, q) {
      FreeCannotFail(cm, q, k);
    }
    if FreeUser(cm, q[k]).Ok? {
      assert q[k] in q;
      FreeUserTakesOut(cm, q[k]);
      FreeUserBlocks(cm, q[k]);
      FreeOutcome(cm, FreeUser(cm, q[k]).value, q, k);
    }
  }

  lemma FreeCannotFail(cm: Cm, q: seq<nat>, k: nat)
    requires CmInv(cm) && Queue(cm, q) && k < |q|
    requires k > 0 || HeadClean(cm, q)
    ensures FreeUser(cm, q[k]).Ok?
  {
    var es := cm.entries;
    assert q[k] in q;
    assert 0 < k ==> es[q[k]].prev == q[k - 1];
    assert k < |q| - 1 ==> es[q[k]].next == q[k + 1];
  }

  lemma FreeOutcome(cm: Cm, cm': Cm, q: seq<nat>, k: nat)
    requires Queue(cm, q) && k < |q| && TakenOut(cm, cm', q[k])
    requires !cm'.entries[q[k]].kind.BusyUser? && SameMetaExcept(cm.entries, cm'.entries, q[k])
    ensures (k > 0 || HeadClean(cm, q)) ==> Queue(cm', Without(q, k))
    ensures (k > 0 || HeadClean(cm, q)) && |q| > 1 ==>
      (HeadClean(cm', Without(q, k)) <==> HeadClean(cm, q))
    ensures !(k > 0 || HeadClean(cm, q)) ==> forall q' :: !Queue(cm', q')
  {
    if k > 0 || HeadClean(cm, q) {
      MembersWithout(cm.entries, cm'.entries, q, k);
      LinksWithout(cm, cm', q, k);
    } else {
      assert cm'.victim == q[k];
      forall q'
        ensures !Queue(cm', q')
      {
        assert q' != [] && q'[0] == q[k] ==> q[k] in q';
      }
    }
  }

  lemma MembersWithout(es: seq<Entry>, es': seq<Entry>, q: seq<nat>, k: nat)
    requires k < |q| && Members(es, q)
    requires SameMetaExcept(es, es', q[k]) && !es'[q[k]].kind.BusyUser?
    ensures Members(es', Without(q, k))
  {
    WithoutMembers(q, k);
    forall g | 0 <= g < |es|
      ensures es'[g].kind.BusyUser? <==> g in Without(q, k)
    {
      assert g != q[k] ==> SameMeta(es[g], es'[g]);
    }
  }

  lemma LinksOf(cm: Cm, q: seq<nat>, k: nat)
    requires Queue(cm, q) && k < |q|
    ensures cm.entries[q[k]].next == if k < |q| - 1 then q[k + 1] else cm.Invalid()
    ensures 0 < k ==> cm.entries[q[k]].prev == q[k - 1]
  {
  }

  lemma LinksWithout(cm: Cm, cm': Cm, q: seq<nat>, k: nat)
    requires Queue(cm, q) && k < |q| && TakenOut(cm, cm', q[k])
    requires Members(cm'.entries, Without(q, k))
    requires k > 0 || HeadClean(cm, q)
    ensures Queue(cm', Without(q, k))
    ensures |q| > 1 ==> (HeadClean(cm', Without(q, k)) <==> HeadClean(cm, q))
  {
    LinksOf(cm, q, k);
    LinkedWithout(cm, cm', q, k);
    QueueOf(cm', Without(q, k));
  }

  lemma LinkedWithout(cm: Cm, cm': Cm, q: seq<nat>, k: nat)
    requires Distinct(q) && (forall i :: 0 <= i < |q| ==> q[i] < |cm.entries|) && Linked(cm.entries, q)
    requires cm.victim < |cm.entries| && cm.last < |cm.entries|
    requires k < |q| && cm.victim == q[0] && cm.last == q[|q| - 1] && cm.entries[cm.last].next == cm.Invalid()
    requires TakenOut(cm, cm', q[k])
    requires cm.entries[q[k]].next == if k < |q| - 1 then q[k + 1] else cm.Invalid()
    requires cm.entries[q[k]].prev == if 0 < k then q[k - 1] else cm.Invalid()
    ensures forall i :: 0 <= i < |Without(q, k)| ==> Without(q, k)[i] < |cm'.entries|
    ensures Linked(cm'.entries, Without(q, k))
    ensures |q| == 1 ==> cm'.victim == cm.Invalid() && cm'.last == cm.Invalid()
    ensures |q| > 1 ==>
      && cm'.victim == Without(q, k)[0] && cm'.last == Without(q, k)[|q| - 2]
      && cm'.entries[Without(q, k)[|q| - 2]].next == cm.Invalid()
      && cm'.entries[Without(q, k)[0]].prev == (if k == 0 then cm.Invalid() else cm.entries[cm.victim].prev)
  {
    NeighboursAfter(cm, cm', q, k);
    RelinkWithout(cm.entries, cm'.entries, q, k);
    EndsWithout(cm, cm', q, k);
  }

  /** Members, links and ends make a queue. */
  lemma QueueOf(cm: Cm, q: seq<nat>)
    requires Members(cm.entries, q) && Linked(cm.entries, q)
    requires q == [] ==> cm.victim == cm.Invalid() && cm.last == cm.Invalid()
    requires q != [] ==> cm.victim == q[0] && cm.last == q[|q| - 1] && cm.entries[q[|q| - 1]].next == cm.Invalid()
    ensures Queue(cm, q)
  {
  }

  /** The frame taken out is where `q` says, so its neighbours in `q` are relinked. */
  ghost predicate Relinked(es: seq<Entry>, es': seq<Entry>, q: seq<nat>, k: nat)
    requires k < |q| && |es'| == |es| && (forall i :: 0 <= i < |q| ==> q[i] < |es|)
  {
    forall i :: 0 <= i < |q| && i != k ==>
      && es'[q[i]].next == (if i == k - 1 then es[q[k]].next else es[q[i]].next)
      && es'[q[i]].prev == (if i == k + 1 then es[q[k]].prev else es[q[i]].prev)
  }

  lemma NeighboursAfter(cm: Cm, cm': Cm, q: seq<nat>, k: nat)
    requires Distinct(q) && (forall i :: 0 <= i < |q| ==> q[i] < |cm.entries|)
    requires k < |q| && TakenOut(cm, cm', q[k])
    requires cm.entries[q[k]].next == if k < |q| - 1 then q[k + 1] else cm.Invalid()
    requires cm.entries[q[k]].prev == if 0 < k then q[k - 1] else cm.Invalid()
    ensures Relinked(cm.entries, cm'.entries, q, k)
  {
    forall i | 0 <= i < |q| && i != k
      ensures cm'.entries[q[i]].next == (if i == k - 1 then cm.entries[q[k]].next else cm.entries[q[i]].next)
      ensures cm'.entries[q[i]].prev == (if i == k + 1 then cm.entries[q[k]].prev else cm.entries[q[i]].prev)
    {
      assert q[i] != q[k];
      assert 0 < k && i != k - 1 ==> q[i] != q[k - 1];
      assert k < |q| - 1 && i != k + 1 ==> q[i] != q[k + 1];
    }
  }

  lemma EndsWithout(cm: Cm, cm': Cm, q: seq<nat>, k: nat)
    requires Distinct(q) && (forall i :: 0 <= i < |q| ==> q[i] < |cm.entries|)
    requires cm.victim < |cm.entries| && cm.last < |cm.entries|
    requires k < |q| && cm.victim == q[0] && cm.last == q[|q| - 1] && cm.entries[cm.last].next == cm.Invalid()
    requires TakenOut(cm, cm', q[k]) && Relinked(cm.entries, cm'.entries, q, k)
    requires cm.entries[q[k]].next == if k < |q| - 1 then q[k + 1] else cm.Invalid()
    requires cm.entries[q[k]].prev == if 0 < k then q[k - 1] else cm.Invalid()
    ensures |q| == 1 ==> cm'.victim == cm.Invalid() && cm'.last == cm.Invalid()
    ensures |q| > 1 ==>
      && cm'.victim == Without(q, k)[0] && cm'.last == Without(q, k)[|q| - 2]
      && cm'.entries[cm'.last].next == cm.Invalid()
      && cm'.entries[cm'.victim].prev == (if k == 0 then cm.Invalid() else cm.entries[cm.victim].prev)
  {
    if |q| > 1 {
      var last := if k == |q| - 1 then |q| - 2 else |q| - 1;
      var first := if k == 0 then 1 else 0;
      assert Without(q, k)[|q| - 2] == q[last] && Without(q, k)[0] == q[first];
      assert cm'.last == q[last] && cm'.victim == q[first];
    }
  }

  lemma RelinkWithout(es: seq<Entry>, es': seq<Entry>, q: seq<nat>, k: nat)
    requires k < |q| && |es'| == |es| && (forall i :: 0 <= i < |q| ==> q[i] < |es|) && Linked(es, q)
    requires Relinked(es, es', q, k)
    ensures forall i :: 0 <= i < |Without(q, k)| ==> Without(q, k)[i] < |es'|
    ensures Linked(es', Without(q, k))
  {
    var q' := Without(q, k);
    forall i | 0 <= i < |q'| - 1
      ensures es'[q'[i]].next == q'[i + 1]
    {
      var j := if i < k then i else i + 1;
      assert es[q[j]].next == q[j + 1];
      assert es[q[k]].next == if k < |q| - 1 then q[k + 1] else es[q[k]].next;
    }
    forall i | 0 < i < |q'|
      ensures es'[q'[i]].prev == q'[i - 1]
    {
      var j := if i < k then i else i + 1;
      assert es[q[j]].prev == q[j - 1];
      assert es[q[k]].prev == if 0 < k then q[k - 1] else es[q[k]].prev;
    }
  }

  /** The kernel's own allocations do not touch the queue. */
  lemma KernelAllocKeepsQueue(cm: Cm, q: seq<nat>, n: nat)
    requires CmInv(cm) && Queue(cm, q) && n > 0
    ensures AllocateKernel(cm, n).Ok? && Queue(AllocateKernel(cm, n).value.0, q)
    ensures q != [] ==> (HeadClean(AllocateKernel(cm, n).value.0, q) <==> HeadClean(cm, q))
  {
    KernelAllocLinks(cm, n);
    SameLinksKeepQueue(cm, AllocateKernel(cm, n).value.0, q);
  }

  lemma KernelAllocLinks(cm: Cm, n: nat)
    requires CmInv(cm) && n > 0
    ensures AllocateKernel(cm, n).Ok?
    ensures
      var cm' := AllocateKernel(cm, n).value.0;
      && |cm'.entries| == |cm.entries| && cm'.last == cm.last && cm'.victim == cm.victim
      && forall i :: 0 <= i < |cm.entries| ==> SameLinks(cm.entries[i], cm'.entries[i])
  {
    AllocateKernelIsFirstFit(cm, n);
    var (cm', f) := AllocateKernel(cm, n).value;
    forall i | 0 <= i < |cm.entries|
      ensures SameLinks(cm.entries[i], cm'.entries[i])
    {
      assert f != 0 && !(f <= i < f + n) ==> SameMeta(cm.entries[i], cm'.entries[i]);
    }
  }

  lemma KernelFreeKeepsQueue(cm: Cm, q: seq<nat>, f: nat)
    requires CmInv(cm) && Queue(cm, q) && f in KernelBlocks(cm)
    ensures FreeKernel(cm, f).Ok? && Queue(FreeKernel(cm, f).value, q)
    ensures q != [] ==> (HeadClean(FreeKernel(cm, f).value, q) <==> HeadClean(cm, q))
  {
    FreeKernelFreesItsBlock(cm, f);
    assert BlockAt(cm.entries, f);
    SameLinksKeepQueue(cm, FreeKernel(cm, f).value, q);
  }

  predicate SameLinks(e: Entry, e': Entry) {
    e'.next == e.next && e'.prev == e.prev && (e'.kind.BusyUser? <==> e.kind.BusyUser?)
  }

  lemma SameLinksKeepQueue(cm: Cm, cm': Cm, q: seq<nat>)
    requires Queue(cm, q) && |cm'.entries| == |cm.entries|
    requires cm'.last == cm.last && cm'.victim == cm.victim
    requires forall i :: 0 <= i < |cm.entries| ==> SameLinks(cm.entries[i], cm'.entries[i])
    ensures Queue(cm', q)
    ensures q != [] ==> (HeadClean(cm', q) <==> HeadClean(cm, q))
  {
  }

  // ------------------------------------------------------------------------- runs

  datatype Op = Alloc(a: SpaceId, va: nat) | Free(f: nat) | KAlloc(n: nat) | KFree(kf: nat)

  /** One coremap call, with the frame it hands out (0 for calls that hand out none). */
  ghost function Step(cm: Cm, op: Op): Result<(Cm, nat)> {
    match op
    case Alloc(a, va) =>
      var (cm1, f) := TakeUserFrame(cm, a, va);
      if f != 0 then
        var cm2 :- Enqueue(cm1, f, a, va);
        Ok((cm2, f))
      else
        var cm2 :- Retarget(cm1, a, va);
        Ok((cm2, cm.victim))
    case Free(f) =>
      var cm1 :- FreeUser(cm, f);
      Ok((cm1, 0))
    case KAlloc(n) => AllocateKernel(cm, n)
    case KFree(f) =>
      var cm1 :- FreeKernel(cm, f);
      Ok((cm1, 0))
  }

  /** The coremap as `coremap_init` leaves it. Links hold arbitrary values. */
  ghost predicate Boot(cm: Cm) {
    && 1 <= cm.ramFirst <= |cm.entries|
    && cm.last == cm.Invalid() && cm.victim == cm.Invalid()
    && forall i :: 0 <= i < |cm.entries| ==>
      cm.entries[i].kind.Untracked? && cm.entries[i].allocSize == 0 && cm.entries[i].space.None?
  }

  /** A run with no failed assertion: call `i` takes state `i` to state `i + 1` and hands
      out frame `given[i]`. */
  ghost predicate IsRun(states: seq<Cm>, ops: seq<Op>, given: seq<nat>) {
    && |states| == |ops| + 1 && |given| == |ops|
    && Boot(states[0])
    && forall i {:trigger ops[i]} :: 0 <= i < |ops| ==> Step(states[i], ops[i]) == Ok((states[i + 1], given[i]))
  }

  ghost predicate Replaces(cm: Cm, op: Op) {
    op.Alloc? && TakeUserFrame(cm, op.a, op.va).1 == 0
  }

  /** What callers do: user frees name user frames, kernel frees name live kernel blocks,
      kernel requests ask for at least one page. Once a page has been replaced (`stale`)
      the current victim is not freed. */
  ghost predicate OrderlyOp(cm: Cm, op: Op, stale: bool) {
    match op
    case Alloc(_, _) => true
    case Free(f) => f < |cm.entries| && cm.entries[f].kind.BusyUser? && (stale ==> f != cm.victim)
    case KAlloc(n) => n > 0
    case KFree(f) => f in KernelBlocks(cm)
  }

  /** Some call before `k` replaced a page. */
  ghost predicate EvictedBefore(states: seq<Cm>, ops: seq<Op>, k: nat)
    requires k <= |ops| < |states|
  {
    exists i :: 0 <= i < k && Replaces(states[i], ops[i])
  }

  ghost predicate Orderly(states: seq<Cm>, ops: seq<Op>)
    requires |ops| < |states|
  {
    forall i {:trigger ops[i]} :: 0 <= i < |ops| ==>
      OrderlyOp(states[i], ops[i], EvictedBefore(states, ops, i))
  }

  /** Index of the last call before `k` that handed frame `f` to a user page; -1 if none. */
  function LastAlloc(ops: seq<Op>, given: seq<nat>, f: nat, k: nat): (t: int)
    requires k <= |ops| == |given|
    ensures -1 <= t < k
    decreases k
  {
    if k == 0 then -1
    else if ops[k - 1].Alloc? && given[k - 1] == f then k - 1
    else LastAlloc(ops, given, f, k - 1)
  }

  /** `q` lists frames in the order of their latest allocation. */
  ghost predicate ByAge(ops: seq<Op>, given: seq<nat>, q: seq<nat>, k: nat)
    requires k <= |ops| == |given|
  {
    forall i, j :: 0 <= i < j < |q| ==> LastAlloc(ops, given, q[i], k) < LastAlloc(ops, given, q[j], k)
  }

  /** FIFO replacement over every orderly run: after `k` calls the links hold the queue of
      exactly the user frames in order of latest allocation, and the first frame is clean
      exactly when no replacement has happened. */
  lemma {:induction false} FifoRun(states: seq<Cm>, ops: seq<Op>, given: seq<nat>, k: nat) returns (q: seq<nat>)
    requires IsRun(states, ops, given) && Orderly(states, ops) && k <= |ops|
    ensures CmInv(states[k])
    ensures Queue(states[k], q) && ByAge(ops, given, q, k)
    ensures q != [] ==> (HeadClean(states[k], q) <==> !EvictedBefore(states, ops, k))
    ensures EvictedBefore(states, ops, k) ==> q != []
    decreases k
  {
    if k == 0 {
      q := [];
      BootInv(states[0]);
    } else {
      var q0 := FifoRun(states, ops, given, k - 1);
      var cm, op := states[k - 1], ops[k - 1];
      q := QueueAfter(cm, op, q0, EvictedBefore(states, ops, k - 1));
      AgesKept(ops, given, k, Replaces(cm, op), q0, q);
      assert EvictedBefore(states, ops, k) <==> EvictedBefore(states, ops, k - 1) || Replaces(cm, op);
    }
  }

  lemma BootInv(cm: Cm)
    requires Boot(cm)
    ensures CmInv(cm) && Queue(cm, [])
  {
  }

  /** Queue `q'` is `q` after a call: the frame handed out comes last, a freed frame is
      missing, nothing else moves. */
  ghost predicate Shape(op: Op, f: nat, evicts: bool, q: seq<nat>, q': seq<nat>) {
    match op
    case Alloc(_, _) =>
      if evicts then q != [] && f == q[0] && q' == q[1..] + [f] else f !in q && q' == q + [f]
    case Free(g) => exists i :: 0 <= i < |q| && q[i] == g && q' == Without(q, i)
    case _ => q' == q
  }

  /** One call of an orderly caller, on any state whose links hold a queue. */
  lemma QueueAfter(cm: Cm, op: Op, q: seq<nat>, stale: bool) returns (q': seq<nat>)
    requires CmInv(cm) && Queue(cm, q) && Step(cm, op).Ok? && OrderlyOp(cm, op, stale)
    requires q != [] ==> (HeadClean(cm, q) <==> !stale)
    ensures
      var (cm', f) := Step(cm, op).value;
      && CmInv(cm') && Queue(cm', q')
      && Shape(op, f, Replaces(cm, op), q, q')
      && (q' != [] ==> (HeadClean(cm', q') <==> !(stale && q != []) && !Replaces(cm, op)))
  {
    match op
    case Alloc(a, va) =>
      TakeUserFrameBlocks(cm, a, va);
      var (cm1, f) := TakeUserFrame(cm, a, va);
      if f == 0 {
        EvictRotates(cm, q, a, va);
        RetargetBlocks(cm, a, va);
        q' := q[1..] + [q[0]];
      } else {
        EnqueueAppends(cm, q, a, va);
        EnqueueBlocks(cm, a, va);
        q' := q + [f];
      }
    case Free(f) =>
      var i :| 0 <= i < |q| && q[i] == f;
      FreeKeepsQueueIff(cm, q, i);
      FreeUserBlocks(cm, f);
      q' := Without(q, i);
    case KAlloc(n) =>
      KernelAllocKeepsQueue(cm, q, n);
      AllocateKernelIsFirstFit(cm, n);
      q' := q;
    case KFree(f) =>
      KernelFreeKeepsQueue(cm, q, f);
      FreeKernelFreesItsBlock(cm, f);
      q' := q;
  }

  /** Ages stay in order across one call. */
  lemma AgesKept(ops: seq<Op>, given: seq<nat>, k: nat, evicts: bool, q: seq<nat>, q': seq<nat>)
    requires 0 < k <= |ops| == |given|
    requires Distinct(q) && ByAge(ops, given, q, k - 1)
    requires Shape(ops[k - 1], given[k - 1], evicts, q, q')
    ensures ByAge(ops, given, q', k)
  {
    var op := ops[k - 1];
    if op.Free? {
      var x :| 0 <= x < |q| && q[x] == op.f && q' == Without(q, x);
    }
  }

  /** The page chosen for replacement is always the one resident longest. */
  lemma VictimIsOldest(states: seq<Cm>, ops: seq<Op>, given: seq<nat>, k: nat, f: nat)
    requires IsRun(states, ops, given) && Orderly(states, ops) && k <= |ops|
    requires f < |states[k].entries| && states[k].entries[f].kind.BusyUser?
    ensures states[k].victim < |states[k].entries| && states[k].entries[states[k].victim].kind.BusyUser?
    ensures f != states[k].victim ==>
      LastAlloc(ops, given, states[k].victim, k) < LastAlloc(ops, given, f, k)
  {
    var q := FifoRun(states, ops, given, k);
    assert q[0] in q;
  }

  /** After an orderly run a user frame can be freed with every link intact unless it is the
      victim and some page has been replaced; a run without replacement never trips the
      assertions of `free_page_user`. */
  lemma FreeAfterRun(states: seq<Cm>, ops: seq<Op>, given: seq<nat>, f: nat)
    requires IsRun(states, ops, given) && Orderly(states, ops)
    requires var cm := states[|ops|]; f < |cm.entries| && cm.entries[f].kind.BusyUser?
    ensures
      var cm := states[|ops|];
      !(f == cm.victim && EvictedBefore(states, ops, |ops|)) <==>
        (FreeUser(cm, f).Ok? && exists q' :: Queue(FreeUser(cm, f).value, q'))
  {
    var cm := states[|ops|];
    var q := FifoRun(states, ops, given, |ops|);
    var i :| 0 <= i < |q| && q[i] == f;
    FreeKeepsQueueIff(cm, q, i);
  }

  // ------------------------------------------------------------------------ owners

  /** Exactly the user frames have an owner. */
  ghost predicate OwnersKnown(es: seq<Entry>) {
    forall i :: 0 <= i < |es| ==> (es[i].space.Some? <==> es[i].kind.BusyUser?)
  }

  lemma TakeOwners(cm: Cm, a: SpaceId, va: nat)
    requires OwnersKnown(cm.entries)
    ensures OwnersKnown(TakeUserFrame(cm, a, va).0.entries)
  {
  }

  lemma EnqueueOwners(cm: Cm, f: nat, a: SpaceId, va: nat)
    requires OwnersKnown(cm.entries) && Enqueue(cm, f, a, va).Ok?
    ensures OwnersKnown(Enqueue(cm, f, a, va).value.entries)
  {
  }

  lemma RetargetOwners(cm: Cm, a: SpaceId, va: nat)
    requires OwnersKnown(cm.entries) && Retarget(cm, a, va).Ok?
    ensures OwnersKnown(Retarget(cm, a, va).value.entries)
  {
  }

  lemma UnlinkOwners(cm: Cm, f: nat)
    requires f < |cm.entries| && OwnersKnown(cm.entries) && Unlink(cm, f).Ok?
    ensures OwnersKnown(Unlink(cm, f).value.entries)
  {
  }

  lemma FreeOwners(cm: Cm, f: nat, n: nat)
    requires OwnersKnown(cm.entries) && FreePages(cm, f, n).Ok?
    ensures OwnersKnown(FreePages(cm, f, n).value.entries)
  {
  }

  lemma FreeUserOwners(cm: Cm, f: nat)
    requires OwnersKnown(cm.entries) && FreeUser(cm, f).Ok?
    ensures OwnersKnown(FreeUser(cm, f).value.entries)
  {
    UnlinkOwners(cm, f);
    var cm1, inv := Unlink(cm, f).value, cm.Invalid();
    FreeOwners(cm1.(entries := SetPrev(SetNext(cm1.entries, f, inv), f, inv)), f, 1);
  }

  lemma KernelOwners(cm: Cm, n: nat)
    requires CmInv(cm) && OwnersKnown(cm.entries) && AllocateKernel(cm, n).Ok?
    ensures OwnersKnown(AllocateKernel(cm, n).value.0.entries)
  {
    var (found, f0) := AllocateFree(cm, n, ForKernel);
    assert OwnersKnown(found.entries);
  }

  lemma StepOwners(cm: Cm, op: Op)
    requires CmInv(cm) && OwnersKnown(cm.entries) && Step(cm, op).Ok?
    ensures OwnersKnown(Step(cm, op).value.0.entries)
  {
    match op
    case Alloc(a, va) =>
      TakeOwners(cm, a, va);
      var (cm1, f) := TakeUserFrame(cm, a, va);
      if f != 0 { EnqueueOwners(cm1, f, a, va); } else { RetargetOwners(cm1, a, va); }
    case Free(f) => FreeUserOwners(cm, f);
    case KAlloc(n) => KernelOwners(cm, n);
    case KFree(f) => FreeOwners(cm, f, cm.entries[f].allocSize);
  }

  /** After any orderly calls a frame has an owner recorded exactly if it is a user frame; a freed one has
      none. */
  lemma {:induction false} OwnersOverRuns(states: seq<Cm>, ops: seq<Op>, given: seq<nat>, k: nat)
    requires IsRun(states, ops, given) && Orderly(states, ops) && k <= |ops|
    ensures OwnersKnown(states[k].entries)
    decreases k
  {
    if k > 0 {
      OwnersOverRuns(states, ops, given, k - 1);
      var q := FifoRun(states, ops, given, k - 1);
      assert Step(states[k - 1], ops[k - 1]) == Ok((states[k], given[k - 1]));
      StepOwners(states[k - 1], ops[k - 1]);
    }
  }

  // ------------------------------------------------------------- the failing free

  function IdleEntry(): Entry {
    Entry(Untracked, 0, 0, 0, 0, None)
  }

  /** Memory of two frames besides frame 0, as `coremap_init` leaves it. */
  function TinyBoot(): Cm {
    Cm([IdleEntry(), IdleEntry(), IdleEntry()], 3, 3, 1)
  }

  /** Both frames given to pages of space 7. */
  function TinyFull(): Cm {
    Cm([IdleEntry(), Entry(BusyUser, 1, 3, 2, 0, Some(7)), Entry(BusyUser, 1, 1, 3, 4096, Some(7))], 2, 1, 3)
  }

  lemma TinyFills()
    ensures
      var cm1 := Enqueue(Steal(TinyBoot(), 1).0, 1, 7, 0);
      cm1.Ok? && Enqueue(Steal(cm1.value, 1).0, 2, 7, 4096) == Ok(TinyFull())
  {
    var e := IdleEntry();
    var cm1 := Enqueue(Steal(TinyBoot(), 1).0, 1, 7, 0).value;
    assert cm1.entries == [e, Entry(BusyUser, 1, 3, 3, 0, Some(7)), e];
    var cm2 := Enqueue(Steal(cm1, 1).0, 2, 7, 4096).value;
    assert cm2.entries == TinyFull().entries;
  }

  /** A third page has replaced the first. */
  function TinyReplaced(): Cm {
    Cm([IdleEntry(), Entry(BusyUser, 1, 2, 3, 8192, Some(7)), Entry(BusyUser, 1, 1, 1, 4096, Some(7))], 1, 2, 3)
  }

  lemma TinyReplaces()
    ensures Retarget(TinyFull(), 7, 8192) == Ok(TinyReplaced())
  {
    assert Retarget(TinyFull(), 7, 8192).value.entries == TinyReplaced().entries;
  }

  /** The current victim, frame 2, has been freed. */
  function TinyFreed(): Cm {
    Cm([IdleEntry(), Entry(BusyUser, 1, 1, 1, 8192, Some(7)), Entry(Freed, 0, 3, 3, 0, None)], 1, 2, 3)
  }

  lemma TinyFrees()
    ensures FreeUser(TinyReplaced(), 2) == Ok(TinyFreed())
  {
    assert FreeUser(TinyReplaced(), 2).value.entries == TinyFreed().entries;
  }

  /** Two user pages fill memory, a third replaces the first, then the current victim is
      freed: the list loses its victim and its last frame links to itself. */
  lemma FreeingVictimAfterEviction()
    ensures
      var cm1 := Enqueue(Steal(TinyBoot(), 1).0, 1, 7, 0);
      cm1.Ok? && Enqueue(Steal(cm1.value, 1).0, 2, 7, 4096) == Ok(TinyFull())
    ensures Retarget(TinyFull(), 7, 8192) == Ok(TinyReplaced()) && FreeUser(TinyReplaced(), 2) == Ok(TinyFreed())
    ensures Boot(TinyBoot()) && Queue(TinyFull(), [1, 2]) && Queue(TinyReplaced(), [2, 1]) && TinyReplaced().victim == 2
    ensures TinyFreed().victim == 2 && TinyFreed().entries[2].kind.Freed? && TinyFreed().entries[1].next == 1
    ensures forall q :: !Queue(TinyFreed(), q)
  {
    TinyFills();
    TinyReplaces();
    TinyFrees();
    forall q
      ensures !Queue(TinyFreed(), q)
    {
      assert q != [] && q[0] == 2 ==> 2 in q;
    }
  }
}
