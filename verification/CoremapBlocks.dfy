/** The frames in use are tiled by blocks: a nonzero `allocSize` marks the first frame
    of a block and gives its length. Allocation is first fit and adds exactly one block;
    `free_kpages` takes exactly the matching block away. */
module CoremapBlocks {
  import opened Common
  import opened Coremap

  predicate Busy(e: Entry) {
    e.kind.BusyKernel? || e.kind.BusyUser?
  }

  /** Frame `j` lies in the block that starts at `i`. */
  predicate InBlock(es: seq<Entry>, i: nat, j: nat) {
    i < |es| && i <= j < i + es[i].allocSize
  }

  /** What a nonzero size at frame `i` stands for. */
  ghost predicate BlockAt(es: seq<Entry>, i: nat)
    requires i < |es|
  {
    es[i].allocSize > 0 ==>
      && i + es[i].allocSize <= |es|
      && Busy(es[i])
      && forall j :: i < j < i + es[i].allocSize ==> es[j].kind == es[i].kind && es[j].allocSize == 0
  }

  ghost predicate Tiled(es: seq<Entry>) {
    && (forall i :: 0 <= i < |es| ==> BlockAt(es, i))
    && (forall j {:trigger Busy(es[j])} :: 0 <= j < |es| && Busy(es[j]) ==> exists i: nat :: InBlock(es, i, j))
    && (forall i {:trigger es[i].allocSize} :: 0 <= i < |es| && es[i].kind.BusyUser? ==> es[i].allocSize == 1)
  }

  /** Holds in every reachable state of the coremap, whatever the FIFO links say. */
  ghost predicate CmInv(cm: Cm) {
    && 1 <= cm.ramFirst <= |cm.entries|
    && cm.entries[0].kind.Untracked?
    && (forall i :: cm.ramFirst <= i < |cm.entries| ==> cm.entries[i].kind.Untracked?)
    && Tiled(cm.entries)
  }

  /** The live kernel blocks: first frame to length. */
  ghost function KernelBlocks(cm: Cm): map<nat, nat> {
    map i: nat | i < |cm.entries| && cm.entries[i].kind.BusyKernel? && cm.entries[i].allocSize > 0
      :: cm.entries[i].allocSize
  }

  /** Equal up to the FIFO links. */
  predicate SameMeta(e: Entry, e': Entry) {
    e.kind == e'.kind && e.allocSize == e'.allocSize && e.vaddr == e'.vaddr && e.space == e'.space
  }

  ghost predicate SameMetaExcept(es: seq<Entry>, es': seq<Entry>, f: nat) {
    |es'| == |es| && forall i :: 0 <= i < |es| && i != f ==> SameMeta(es[i], es'[i])
  }

  lemma BlocksDisjoint(es: seq<Entry>, i: nat, i': nat, j: nat)
    requires Tiled(es) && j < |es|
    requires InBlock(es, i, j) && InBlock(es, i', j)
    ensures i == i'
  {
    assert BlockAt(es, i) && BlockAt(es, i');
  }

  lemma IdleHasNoSize(es: seq<Entry>, i: nat)
    requires Tiled(es) && i < |es| && !Busy(es[i])
    ensures es[i].allocSize == 0
    ensures forall k: nat :: !InBlock(es, k, i)
  {
    assert BlockAt(es, i);
    forall k: nat
      ensures !InBlock(es, k, i)
    {
      assert k < |es| ==> BlockAt(es, k);
    }
  }

  // ------------------------------------------------------- one new block appears

  /** `es'` is `es` with the idle frames `f .. f + n` turned into one block of kind `k`. */
  ghost predicate NewBlock(es: seq<Entry>, es': seq<Entry>, f: nat, n: nat, k: Kind) {
    && |es'| == |es| && n > 0 && f + n <= |es|
    && (forall i :: f <= i < f + n ==>
          !Busy(es[i]) && es'[i].kind == k && es'[i].allocSize == if i == f then n else 0)
    && (forall i :: 0 <= i < |es| && !(f <= i < f + n) ==> SameMeta(es[i], es'[i]))
  }

  lemma NewBlockTiles(es: seq<Entry>, es': seq<Entry>, f: nat, n: nat, k: Kind)
    requires Tiled(es) && NewBlock(es, es', f, n, k)
    requires k.BusyKernel? || (k.BusyUser? && n == 1)
    ensures Tiled(es')
  {
    forall i | 0 <= i < |es'|
      ensures BlockAt(es', i)
    {
      assert BlockAt(es, i);
      assert SameMeta(es[i], es'[i]) ==> forall j :: i < j < i + es[i].allocSize ==> SameMeta(es[j], es'[j]);
    }
    forall j | 0 <= j < |es'| && Busy(es'[j])
      ensures exists i: nat :: InBlock(es', i, j)
    {
      if f <= j < f + n {
        assert InBlock(es', f, j);
      } else {
        assert Busy(es[j]);
        var i: nat :| InBlock(es, i, j);
        if f <= i < f + n { IdleHasNoSize(es, i); }
        assert InBlock(es', i, j);
      }
    }
  }

  // ------------------------------------------------------------ one block goes away

  /** `es'` is `es` with the block at `f` turned into freed frames. */
  ghost predicate BlockGone(es: seq<Entry>, es': seq<Entry>, f: nat) {
    && f < |es| == |es'| && es[f].allocSize > 0 && f + es[f].allocSize <= |es|
    && (forall i :: f <= i < f + es[f].allocSize ==> es'[i].kind.Freed? && es'[i].allocSize == 0)
    && (forall i :: 0 <= i < |es| && !(f <= i < f + es[f].allocSize) ==> SameMeta(es[i], es'[i]))
  }

  lemma BlockGoneTiles(es: seq<Entry>, es': seq<Entry>, f: nat)
    requires Tiled(es) && BlockGone(es, es', f)
    ensures Tiled(es')
  {
    var n := es[f].allocSize;
    forall i | 0 <= i < |es'|
      ensures BlockAt(es', i)
    {
      assert BlockAt(es, i) && BlockAt(es, f);
      assert i < f ==> i + es[i].allocSize <= f;
    }
    forall j | 0 <= j < |es'| && Busy(es'[j])
      ensures exists i: nat :: InBlock(es', i, j)
    {
      assert Busy(es[j]);
      var i: nat :| InBlock(es, i, j);
      assert BlockAt(es, i) && BlockAt(es, f);
      assert i != f;
      assert InBlock(es', i, j);
    }
  }

  lemma SameMetaTiles(es: seq<Entry>, es': seq<Entry>)
    requires Tiled(es) && |es'| == |es|
    requires forall i :: 0 <= i < |es| ==> es'[i].kind == es[i].kind && es'[i].allocSize == es[i].allocSize
    ensures Tiled(es')
  {
    forall i | 0 <= i < |es'| ensures BlockAt(es', i) { assert BlockAt(es, i); }
    forall j | 0 <= j < |es'| && Busy(es'[j])
      ensures exists i: nat :: InBlock(es', i, j)
    {
      assert Busy(es[j]);
      var i: nat :| InBlock(es, i, j);
      assert InBlock(es', i, j);
    }
  }

  lemma NewBlockInv(cm: Cm, cm': Cm, f: nat, n: nat, k: Kind)
    requires CmInv(cm) && NewBlock(cm.entries, cm'.entries, f, n, k)
    requires k.BusyKernel? || (k.BusyUser? && n == 1)
    requires f > 0 && cm.ramFirst <= cm'.ramFirst <= |cm.entries| && f + n <= cm'.ramFirst
    ensures CmInv(cm')
    ensures f !in KernelBlocks(cm)
    ensures KernelBlocks(cm') == if k.BusyKernel? then KernelBlocks(cm)[f := n] else KernelBlocks(cm)
  {
    NewBlockTiles(cm.entries, cm'.entries, f, n, k);
    assert SameMeta(cm.entries[0], cm'.entries[0]);
    assert !Busy(cm.entries[f]);
    forall i: nat | i < |cm.entries| && i != f
      ensures i in KernelBlocks(cm') <==> i in KernelBlocks(cm)
      ensures i in KernelBlocks(cm) ==> KernelBlocks(cm')[i] == KernelBlocks(cm)[i]
    {
    }
  }

  lemma BlockGoneInv(cm: Cm, cm': Cm, f: nat)
    requires CmInv(cm) && BlockGone(cm.entries, cm'.entries, f)
    requires cm'.ramFirst == cm.ramFirst
    ensures CmInv(cm')
    ensures KernelBlocks(cm') == KernelBlocks(cm) - {f}
  {
    BlockGoneTiles(cm.entries, cm'.entries, f);
    var n := cm.entries[f].allocSize;
    assert BlockAt(cm.entries, f);
    assert Busy(cm.entries[f + n - 1]);
    forall i: nat | i < |cm.entries| && i != f
      ensures i in KernelBlocks(cm') <==> i in KernelBlocks(cm)
      ensures i in KernelBlocks(cm) ==> KernelBlocks(cm')[i] == KernelBlocks(cm)[i]
    {
      assert BlockAt(cm.entries, i);
    }
  }

  // ------------------------------------------------------------ the kernel's calls

  /** A frame the boot-time allocator has left. */
  predicate Unused(cm: Cm, j: nat) {
    cm.ramFirst <= j < |cm.entries|
  }

  /** The frames from `f` on come out of those the boot-time allocator has left: no block has ever held
      them, none is frame 0, and no later request can get them. It fails exactly when too few are left. */
  ghost predicate Obtained(cm: Cm, cm': Cm, f: nat, n: nat) {
    && CmInv(cm') && cm'.entries == cm.entries
    && (f == 0 <==> !(n == 0 || Unused(cm, cm.ramFirst + n - 1)))
    && (forall j: nat :: Unused(cm, j) <==> Unused(cm', j) || (f != 0 && f <= j < f + n))
    && (forall j: nat :: f != 0 && f <= j < f + n ==> j > 0 && !Unused(cm', j))
    && (forall i: nat, j: nat :: f != 0 && f <= j < f + n ==> !InBlock(cm.entries, i, j))
  }

  lemma StealIsNew(cm: Cm, n: nat)
    requires CmInv(cm)
    ensures Obtained(cm, Steal(cm, n).0, Steal(cm, n).1, n)
  {
    forall i: nat, j: nat | Unused(cm, j)
      ensures !InBlock(cm.entries, i, j)
    {
      assert cm.entries[j].kind.Untracked?;
      if i < |cm.entries| { assert BlockAt(cm.entries, i); }
    }
  }

  /** `alloc_kpages` takes the lowest run of freed frames, else the boot-time frames, and
      fails only when neither exists. Success adds exactly one kernel block, on frames
      nobody held. */
  lemma AllocateKernelIsFirstFit(cm: Cm, n: nat)
    requires CmInv(cm) && n > 0
    ensures AllocateKernel(cm, n).Ok?
    ensures
      var (cm', f) := AllocateKernel(cm, n).value;
      && CmInv(cm')
      && (f == 0 <==> cm.ramFirst + n > |cm.entries| && forall k: nat :: !FreeRun(cm.entries, k, n))
      && (f == 0 ==> cm' == cm)
      && (f != 0 ==>
            && NewBlock(cm.entries, cm'.entries, f, n, BusyKernel)
            && f !in KernelBlocks(cm)
            && KernelBlocks(cm') == KernelBlocks(cm)[f := n]
            && (FreeRun(cm.entries, f, n) || (f == cm.ramFirst && forall k: nat :: !FreeRun(cm.entries, k, n)))
            && forall k: nat :: k < f ==> !FreeRun(cm.entries, k, n))
  {
    var (found, f0) := AllocateFree(cm, n, ForKernel);
    var (cm1, f) := if f0 == 0 then Steal(found, n) else (found, f0);
    var fit := FirstFit(cm.entries, n);
    assert cm.entries[0].kind.Untracked?;
    assert !FreeRun(cm.entries, 0, Max(n, 1));
    if f0 == 0 {
      assert fit.None?;
      if f != 0 {
        assert forall i :: f <= i < f + n ==> cm.entries[i].kind.Untracked?;
        NewKernelBlock(cm, n, f);
      }
    } else {
      assert fit == Some(f);
      NewKernelBlock(cm, n, f);
    }
  }

  lemma NewKernelBlock(cm: Cm, n: nat, f: nat)
    requires CmInv(cm) && n > 0 && f != 0
    requires AllocateKernel(cm, n).Ok? && AllocateKernel(cm, n).value.1 == f
    ensures
      var cm' := AllocateKernel(cm, n).value.0;
      && CmInv(cm')
      && NewBlock(cm.entries, cm'.entries, f, n, BusyKernel)
      && f !in KernelBlocks(cm)
      && KernelBlocks(cm') == KernelBlocks(cm)[f := n]
  {
    var es := cm.entries;
    var cm' := AllocateKernel(cm, n).value.0;
    if FirstFit(es, n) == Some(f) {
      assert forall i :: f <= i < f + n ==> es[i].kind.Freed?;
      assert es[f + n - 1].kind.Freed?;
      KernelBlockEntries(es, SetSize(MarkBlock(es, f, n, ForKernel), f, n), n, f);
    } else {
      assert forall i :: f <= i < f + n ==> es[i].kind.Untracked?;
      KernelBlockEntries(es, es, n, f);
    }
    NewBlockInv(cm, cm', f, n, BusyKernel);
  }

  lemma KernelBlockEntries(es: seq<Entry>, es1: seq<Entry>, n: nat, f: nat)
    requires Tiled(es) && n > 0 && f + n <= |es|
    requires forall i :: f <= i < f + n ==> !Busy(es[i])
    requires es1 == es || es1 == SetSize(MarkBlock(es, f, n, ForKernel), f, n)
    ensures NewBlock(es, SetSize(SetKind(es1, f, n, BusyKernel), f, n), f, n, BusyKernel)
  {
    var es' := SetSize(SetKind(es1, f, n, BusyKernel), f, n);
    forall i | f <= i < f + n
      ensures es'[i].kind == BusyKernel && es'[i].allocSize == if i == f then n else 0
    {
      IdleHasNoSize(es, i);
    }
  }

  /** `free_kpages` of a live block frees exactly the frames its allocation returned. */
  lemma FreeKernelFreesItsBlock(cm: Cm, f: nat)
    requires CmInv(cm) && f in KernelBlocks(cm)
    ensures FreeKernel(cm, f).Ok?
    ensures
      var cm' := FreeKernel(cm, f).value;
      && CmInv(cm')
      && BlockGone(cm.entries, cm'.entries, f)
      && KernelBlocks(cm') == KernelBlocks(cm) - {f}
  {
    assert BlockAt(cm.entries, f);
    var cm' := FreeKernel(cm, f).value;
    forall i | f <= i < f + cm.entries[f].allocSize
      ensures cm'.entries[i].kind.Freed? && cm'.entries[i].allocSize == 0
    {
      assert i != f ==> cm.entries[i].allocSize == 0;
    }
    BlockGoneInv(cm, cm', f);
  }

  // -------------------------------------------------------------- the user's calls

  /** Obtaining a frame for a user page adds one block of one frame; on failure nothing
      changes and no frame was free. */
  lemma TakeUserFrameBlocks(cm: Cm, a: SpaceId, va: nat)
    requires CmInv(cm)
    ensures
      var (cm1, f) := TakeUserFrame(cm, a, va);
      && (f == 0 ==> cm1 == cm && cm.ramFirst == |cm.entries|
                     && forall i :: 0 <= i < |cm.entries| ==> !cm.entries[i].kind.Freed?)
      && (f != 0 ==>
            && f < |cm.entries| && !Busy(cm.entries[f])
            && cm1.last == cm.last && cm1.victim == cm.victim
            && SameMetaExcept(cm.entries, cm1.entries, f)
            && (forall i :: 0 <= i < |cm.entries| ==>
                  cm1.entries[i].next == cm.entries[i].next && cm1.entries[i].prev == cm.entries[i].prev)
            && cm.ramFirst <= cm1.ramFirst <= |cm.entries| && f < cm1.ramFirst)
  {
    var (found, f0) := AllocateFree(cm, 1, ForUser(a, va));
    var fit := FirstFit(cm.entries, 1);
    if fit.None? {
      forall i | 0 <= i < |cm.entries|
        ensures !cm.entries[i].kind.Freed?
      {
        assert !FreeRun(cm.entries, i, 1);
      }
    } else {
      assert FreeRun(cm.entries, fit.value, 1);
      assert cm.entries[fit.value].kind.Freed?;
      assert SameMetaExcept(cm.entries, found.entries, fit.value);
    }
  }

  /** A frame obtained by `TakeUserFrame`, recorded and queued. */
  lemma EnqueueBlocks(cm: Cm, a: SpaceId, va: nat)
    requires CmInv(cm)
    requires TakeUserFrame(cm, a, va).1 != 0
    requires Enqueue(TakeUserFrame(cm, a, va).0, TakeUserFrame(cm, a, va).1, a, va).Ok?
    ensures
      var (cm1, f) := TakeUserFrame(cm, a, va);
      var cm' := Enqueue(cm1, f, a, va).value;
      && CmInv(cm')
      && NewBlock(cm.entries, cm'.entries, f, 1, BusyUser)
      && SameMetaExcept(cm.entries, cm'.entries, f)
      && cm'.entries[f].space == Some(a) && cm'.entries[f].vaddr == va
      && KernelBlocks(cm') == KernelBlocks(cm)
  {
    TakeUserFrameBlocks(cm, a, va);
    var (cm1, f) := TakeUserFrame(cm, a, va);
    var cm' := Enqueue(cm1, f, a, va).value;
    IdleHasNoSize(cm.entries, f);
    assert SameMetaExcept(cm1.entries, cm'.entries, f);
    assert NewBlock(cm.entries, cm'.entries, f, 1, BusyUser);
    NewBlockInv(cm, cm', f, 1, BusyUser);
  }

  lemma RetargetBlocks(cm: Cm, a: SpaceId, va: nat)
    requires CmInv(cm) && Retarget(cm, a, va).Ok?
    ensures
      var cm' := Retarget(cm, a, va).value;
      && CmInv(cm')
      && SameMetaExcept(cm.entries, cm'.entries, cm.victim)
      && cm.victim < |cm.entries|
      && cm.entries[cm.victim].kind.BusyUser? && cm'.entries[cm.victim].kind.BusyUser?
      && cm'.entries[cm.victim].space == Some(a) && cm'.entries[cm.victim].vaddr == va
      && KernelBlocks(cm') == KernelBlocks(cm)
  {
    var cm' := Retarget(cm, a, va).value;
    SameMetaTiles(cm.entries, cm'.entries);
  }

  lemma UnlinkKeepsMeta(cm: Cm, f: nat)
    requires f < |cm.entries| && Unlink(cm, f).Ok?
    ensures
      var cm1 := Unlink(cm, f).value;
      && |cm1.entries| == |cm.entries| && cm1.ramFirst == cm.ramFirst
      && forall i :: 0 <= i < |cm.entries| ==> SameMeta(cm.entries[i], cm1.entries[i])
  {
  }

  /** Freeing a user frame takes its block away, whatever the state of the links. */
  lemma FreeUserBlocks(cm: Cm, f: nat)
    requires CmInv(cm) && f < |cm.entries| && cm.entries[f].kind.BusyUser?
    requires FreeUser(cm, f).Ok?
    ensures
      var cm' := FreeUser(cm, f).value;
      && CmInv(cm')
      && BlockGone(cm.entries, cm'.entries, f)
      && SameMetaExcept(cm.entries, cm'.entries, f)
      && KernelBlocks(cm') == KernelBlocks(cm)
  {
    UnlinkKeepsMeta(cm, f);
    var cm' := FreeUser(cm, f).value;
    assert SameMetaExcept(Unlink(cm, f).value.entries, cm'.entries, f);
    assert BlockAt(cm.entries, f);
    assert BlockGone(cm.entries, cm'.entries, f);
    BlockGoneInv(cm, cm', f);
  }
}
