/** The coremap: one record per physical frame, the boot-time bump allocator behind
    it, and the FIFO list of user frames threaded through the records.

    Frames are named by their number; frame 0 plays the part of the null address,
    as in the kernel. `Cm` is the value of all coremap variables; the functions give
    the effect of each operation, including the runs it ends. */
module Coremap {
  import opened Common

  type SpaceId = nat

  datatype Kind = BusyKernel | BusyUser | Untracked | Freed

  datatype Entry = Entry(
    kind: Kind,
    allocSize: nat,
    prev: nat,
    next: nat,
    vaddr: nat,
    space: Option<SpaceId>)

  /** `ramFirst` is the next frame the boot-time allocator hands out. */
  datatype Cm = Cm(entries: seq<Entry>, last: nat, victim: nat, ramFirst: nat) {
    /** The "no frame" link value: one past the last frame. */
    function Invalid(): nat {
      |entries|
    }
  }

  /** Who a block is allocated for. */
  datatype Use = ForKernel | ForUser(id: SpaceId, va: nat)

  // ---------------------------------------------------------------- first fit

  ghost predicate FreeRun(es: seq<Entry>, start: nat, n: nat) {
    && start + n <= |es|
    && forall j :: start <= j < start + n ==> es[j].kind.Freed?
  }

  /** Lowest start of `n` consecutive freed frames at or after `i`. */
  ghost function FirstFitFrom(es: seq<Entry>, n: nat, i: nat): (r: Option<nat>)
    decreases |es| - i
    ensures r.Some? ==> i <= r.value && FreeRun(es, r.value, n)
    ensures r.Some? ==> forall k :: i <= k < r.value ==> !FreeRun(es, k, n)
    ensures r.None? && n > 0 ==> forall k: nat :: i <= k ==> !FreeRun(es, k, n)
  {
    if i >= |es| then None
    else if FreeRun(es, i, n) then Some(i)
    else FirstFitFrom(es, n, i + 1)
  }

  /** A request for zero frames stops at the first freed frame, as a request for one does. */
  ghost function FirstFit(es: seq<Entry>, n: nat): (r: Option<nat>) {
    FirstFitFrom(es, Max(n, 1), 0)
  }

  function Marked(e: Entry, use: Use): Entry {
    match use
    case ForKernel => e.(kind := BusyKernel, vaddr := 0, space := None)
    case ForUser(a, va) => e.(kind := BusyUser, vaddr := va, space := Some(a))
  }

  function MarkBlock(es: seq<Entry>, start: nat, n: nat, use: Use): (r: seq<Entry>)
    ensures |r| == |es|
  {
    seq(|es|, i requires 0 <= i < |es| => if start <= i < start + n then Marked(es[i], use) else es[i])
  }

  function SetSize(es: seq<Entry>, f: nat, n: nat): seq<Entry>
    requires f < |es|
  {
    es[f := es[f].(allocSize := n)]
  }

  /** `allocate_free_pages`: the frame returned is 0 when no run is found. */
  ghost function AllocateFree(cm: Cm, n: nat, use: Use): (r: (Cm, nat))
    ensures |r.0.entries| == |cm.entries|
  {
    match FirstFit(cm.entries, n)
    case None => (cm, 0)
    case Some(f) => (cm.(entries := SetSize(MarkBlock(cm.entries, f, n, use), f, n)), f)
  }

  /** `ram_stealmem`. */
  function Steal(cm: Cm, n: nat): (Cm, nat) {
    if cm.ramFirst + n > |cm.entries| then (cm, 0) else (cm.(ramFirst := cm.ramFirst + n), cm.ramFirst)
  }

  // ---------------------------------------------------------- kernel allocation

  function SetKind(es: seq<Entry>, start: nat, n: nat, kind: Kind): (r: seq<Entry>)
    ensures |r| == |es|
  {
    seq(|es|, i requires 0 <= i < |es| => if start <= i < start + n then es[i].(kind := kind) else es[i])
  }

  /** `allocate_kernel_pages`. */
  ghost function AllocateKernel(cm: Cm, n: nat): Result<(Cm, nat)> {
    var (found, f0) := AllocateFree(cm, n, ForKernel);
    var (cm1, f) := if f0 == 0 then Steal(found, n) else (found, f0);
    if f == 0 then Ok((cm1, 0))
    else
      :- Check(f < |cm.entries| && f + n <= |cm.entries|);
      Ok((cm1.(entries := SetSize(SetKind(cm1.entries, f, n, BusyKernel), f, n)), f))
  }

  function Released(e: Entry): Entry {
    e.(kind := Freed, vaddr := 0, space := None)
  }

  function ReleaseBlock(es: seq<Entry>, start: nat, n: nat): (r: seq<Entry>)
    ensures |r| == |es|
  {
    seq(|es|, i requires 0 <= i < |es| => if start <= i < start + n then Released(es[i]) else es[i])
  }

  /** `free_pages`. */
  function FreePages(cm: Cm, f: nat, n: nat): Result<Cm> {
    var total := |cm.entries|;
    :- Check(f < total && f + n <= total);
    Ok(cm.(entries := SetSize(ReleaseBlock(cm.entries, f, n), f, 0)))
  }

  /** `free_kpages`. */
  function FreeKernel(cm: Cm, f: nat): Result<Cm> {
    var total := |cm.entries|;
    :- Check(f < total);
    FreePages(cm, f, cm.entries[f].allocSize)
  }

  // ------------------------------------------------------------ user allocation

  function SetNext(es: seq<Entry>, f: nat, x: nat): seq<Entry>
    requires f < |es|
  {
    es[f := es[f].(next := x)]
  }

  function SetPrev(es: seq<Entry>, f: nat, x: nat): seq<Entry>
    requires f < |es|
  {
    es[f := es[f].(prev := x)]
  }

  /** A frame for a user page without replacement; 0 when there is none. */
  ghost function TakeUserFrame(cm: Cm, a: SpaceId, va: nat): (Cm, nat) {
    var (found, f) := AllocateFree(cm, 1, ForUser(a, va));
    if f == 0 then Steal(found, 1) else (found, f)
  }

  /** Records the owner of a newly obtained user frame and appends it to the FIFO list. */
  function Enqueue(cm: Cm, f: nat, a: SpaceId, va: nat): Result<Cm> {
    var inv := cm.Invalid();
    :- Check(f < |cm.entries|);
    var es1 := cm.entries[f := cm.entries[f].(kind := BusyUser, allocSize := 1, vaddr := va, space := Some(a))];
    :- Check(cm.last <= inv);
    var es2 := if cm.last != inv then SetPrev(SetNext(es1, cm.last, f), f, cm.last) else SetPrev(es1, f, inv);
    var es3 := SetNext(es2, f, inv);
    Ok(cm.(entries := es3, last := f, victim := if cm.victim == inv then f else cm.victim))
  }

  /** The coremap part of an eviction: the victim frame changes owner and moves to
      the tail of the FIFO list. */
  function Retarget(cm: Cm, a: SpaceId, va: nat): Result<Cm> {
    var v := cm.victim;
    :- Check(v < |cm.entries|);
    :- Check(cm.entries[v].kind.BusyUser? && cm.entries[v].allocSize == 1);
    var es1 := cm.entries[v := cm.entries[v].(vaddr := va, space := Some(a))];
    var newVictim := es1[v].next;
    :- Check(cm.last < |cm.entries|);
    var es2 := SetPrev(SetNext(SetNext(es1, cm.last, v), v, cm.Invalid()), v, cm.last);
    :- Check(newVictim != cm.Invalid());
    Ok(cm.(entries := es2, last := v, victim := newVictim))
  }

  /** The list surgery of `free_page_user`, before the frame itself is released. */
  function Unlink(cm: Cm, f: nat): Result<Cm>
    requires f < |cm.entries|
  {
    var es := cm.entries;
    var inv := cm.Invalid();
    var p, n := es[f].prev, es[f].next;
    if p == inv then
      if n == inv then Ok(cm.(victim := inv, last := inv))
      else
        :- Check(f == cm.victim && n < |es|);
        Ok(cm.(entries := SetPrev(es, n, inv), victim := n))
    else if n == inv then
      :- Check(f == cm.last && p < |es|);
      Ok(cm.(entries := SetNext(es, p, inv), last := p))
    else
      :- Check(n < |es| && p < |es|);
      Ok(cm.(entries := SetNext(SetPrev(es, n, p), p, n)))
  }

  /** `free_page_user`. */
  function FreeUser(cm: Cm, f: nat): Result<Cm> {
    var inv := cm.Invalid();
    :- Check(f < |cm.entries|);
    :- Check(cm.entries[f].allocSize == 1);
    var cm1 :- Unlink(cm, f);
    var es := SetPrev(SetNext(cm1.entries, f, inv), f, inv);
    FreePages(cm1.(entries := es), f, 1)
  }
}
