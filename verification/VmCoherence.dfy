/** The TLB never disagrees with the page tables: for faults this depends on what happens to
    entries of a page that has just lost its frame. */
module VmCoherence {
  import opened Common
  import opened Coremap
  import opened CoremapBlocks
  import opened PageTable
  import opened Segment
  import opened AddrSpace
  import opened Tlb
  import opened Vm
  import opened VmOwn
  import opened VmView
  import opened VmFault

  /** A TLB entry says about page `p` of space `a` what the page table says. */
  predicate Agrees(spaces: Spaces, a: SpaceId, e: TlbEntry, p: Pg) {
    && e.Maps? && p.a == a && 0 < e.frame
    && Holds(spaces, p, FrameWord(e.frame))
    && AddrOf(spaces, p) == e.page
    && e.dirty == SegOf(spaces, p).Writable()
  }

  /** The entry says what the page table says about some page of space `a`. */
  ghost predicate Mirrors(spaces: Spaces, a: SpaceId, e: TlbEntry) {
    exists p :: Agrees(spaces, a, e, p)
  }

  /** Every valid entry agrees with the page table of the running space. */
  ghost predicate AllAgree(spaces: Spaces, a: SpaceId, slots: seq<TlbEntry>) {
    forall i {:trigger slots[i]} :: 0 <= i < |slots| && slots[i].Maps? ==> Mirrors(spaces, a, slots[i])
  }

  /** No page has two valid entries. */
  ghost predicate NoDuplicates(slots: seq<TlbEntry>) {
    forall i, j :: 0 <= i < j < |slots| && slots[i].Maps? && slots[j].Maps? ==> slots[i].page != slots[j].page
  }

  ghost predicate Coherent(s: State) {
    s.cur.Some? ==>
      && s.cur.value in s.spaces
      && AllAgree(s.spaces, s.cur.value, s.tlb.slots)
      && NoDuplicates(s.tlb.slots)
  }

  /** Obtaining a frame for this page replaces another page. */
  ghost predicate NeedsVictim(cm: Cm, a: SpaceId, va: nat) {
    TakeUserFrame(cm, a, va).1 == 0
  }

  // --------------------------------------------------------- what alloc does to it

  lemma AllocAndTlb(s: State, a: SpaceId, va: nat, slept: bool)
    requires AllocUserPage(s, a, va, slept).Ok?
    ensures
      var (s1, f) := AllocUserPage(s, a, va, slept).value;
      && s1.tlb == (if NeedsVictim(s.cm, a, va) && slept then Invalidate(s.tlb) else s.tlb)
      && (NeedsVictim(s.cm, a, va) ==> f == TakeUserFrame(s.cm, a, va).0.victim)
      && (!NeedsVictim(s.cm, a, va) ==> s1.spaces == s.spaces)
  {
  }

  /** Words after making page `p` resident: all as before, except the victim's. */
  ghost predicate WordsAfter(s: State, s': State, p: Pg, lost: bool) {
    forall q :: IsPage(s.spaces, q) && q != p ==>
      && IsPage(s'.spaces, q)
      && (WordOf(s'.spaces, q) == WordOf(s.spaces, q)
          || (lost && WordOf(s.spaces, q) == FrameWord(s.cm.victim)))
  }

  /** Making the page resident takes another page's frame. */
  ghost predicate Replacing(s: State, p: Pg, va: nat)
    requires IsPage(s.spaces, p)
  {
    !IsResident(WordOf(s.spaces, p)) && NeedsVictim(s.cm, p.a, PageFrame(va))
  }

  /** A page outside memory is read from disk unless it is a new stack page. */
  predicate ReadsDisk(spaces: Spaces, p: Pg)
    requires IsPage(spaces, p)
  {
    IsSwapped(WordOf(spaces, p)) || (WordOf(spaces, p) == PT_EMPTY && !SegOf(spaces, p).perm.StackPerm?)
  }

  /** Some transfer of the fault slept, so the TLB was flushed on the way. */
  ghost predicate Flushed(s: State, p: Pg, va: nat, env: Env)
    requires IsPage(s.spaces, p)
  {
    (Replacing(s, p, va) && env.slept) || (ReadsDisk(s.spaces, p) && env.readSlept)
  }

  /** The page's contents arrive in full. */
  predicate Arrives(spaces: Spaces, p: Pg, env: Env)
    requires IsPage(spaces, p)
  {
    var seg := SegOf(spaces, p);
    WordOf(spaces, p) != PT_EMPTY || seg.perm.StackPerm? || LoadSucceeds(seg, LoadOf(seg, p.index), env.read)
  }

  lemma InvalidTwice(t: Tlb)
    ensures Invalidate(Invalidate(t)) == Invalidate(t)
  {
  }

  /** After the frame is obtained only the word of `p` changes, and the TLB only by a sleeping read. */
  lemma TablesAfter(s: State, s1: State, f: nat, p: Pg, va: nat, env: Env)
    requires IsPage(s.spaces, p) && !IsResident(WordOf(s.spaces, p))
    requires AllocUserPage(s, p.a, PageFrame(va), env.slept) == Ok((s1, f)) && f > 0
    requires SameLayout(s.spaces, s1.spaces) && IsPage(s1.spaces, p)
    requires WordOf(s1.spaces, p) == WordOf(s.spaces, p)
    requires MakeResident(s, p, va, env).Ok?
    requires Own(s1.spaces, s1.cm.entries, s1.slots, f)
    ensures
      var (s', f', ok) := MakeResident(s, p, va, env).value;
      && f' == f && ok == Arrives(s.spaces, p, env)
      && s'.spaces == SetWord(s1.spaces, p, FrameWord(f))
      && s'.tlb == (if ReadsDisk(s.spaces, p) && env.readSlept then Invalidate(s1.tlb) else s1.tlb)
  {
    if WordOf(s.spaces, p) == PT_EMPTY {
      FirstTouchUnfolds(s, s1, f, p, va, env);
    } else {
      assert Backed(s1.spaces, s1.cm.entries, s1.slots, p);
      BringBackUnfolds(s, s1, f, p, va, env);
    }
  }

  /** The words, the TLB and the frame after the page has been made resident. */
  ghost predicate TlbAndWords(s: State, p: Pg, va: nat, env: Env, s': State, f: nat, ok: bool)
    requires IsPage(s.spaces, p)
  {
    && s'.tlb == (if Flushed(s, p, va, env) then Invalidate(s.tlb) else s.tlb)
    && WordsAfter(s, s', p, Replacing(s, p, va))
    && (Replacing(s, p, va) ==> f == s.cm.victim)
    && ok == Arrives(s.spaces, p, env)
  }

  lemma AbsentAndTlb(s: State, p: Pg, va: nat, env: Env)
    requires Core(s, |s.cm.entries|) && IsPage(s.spaces, p) && !IsResident(WordOf(s.spaces, p))
    requires AddrOf(s.spaces, p) == PageFrame(va) && MakeResident(s, p, va, env).Ok?
    ensures var (s', f, ok) := MakeResident(s, p, va, env).value; TlbAndWords(s, p, va, env, s', f, ok)
  {
    var s' := MakeResident(s, p, va, env).value.0;
    AllocAndTlb(s, p.a, PageFrame(va), env.slept);
    AllocReady(s, p.a, PageFrame(va), env.slept);
    TakeUserFrameBlocks(s.cm, p.a, PageFrame(va));
    var (s1, f1) := AllocUserPage(s, p.a, PageFrame(va), env.slept).value;
    ReadyPage(s, s1, p, f1);
    TablesAfter(s, s1, f1, p, va, env);
    InvalidTwice(s.tlb);
    WordsFromAlloc(s, s1, s', p, f1, f1, NeedsVictim(s.cm, p.a, PageFrame(va)));
  }

  lemma ResidentAndTlb(s: State, p: Pg, va: nat, env: Env)
    requires Core(s, |s.cm.entries|) && IsPage(s.spaces, p)
    requires AddrOf(s.spaces, p) == PageFrame(va) && MakeResident(s, p, va, env).Ok?
    ensures var (s', f, ok) := MakeResident(s, p, va, env).value; TlbAndWords(s, p, va, env, s', f, ok)
  {
    if IsResident(WordOf(s.spaces, p)) {
      assert MakeResident(s, p, va, env).value.0.spaces == s.spaces;
    } else {
      AbsentAndTlb(s, p, va, env);
    }
  }

  lemma WordsFromAlloc(s: State, s1: State, s': State, p: Pg, f: nat, w: nat, lost: bool)
    requires IsPage(s1.spaces, p) && s'.spaces == SetWord(s1.spaces, p, FrameWord(w))
    requires forall q :: IsPage(s.spaces, q) ==> KeptBy(s, s1, f, q)
    requires !lost ==> s1.spaces == s.spaces
    requires lost ==> f == s.cm.victim
    ensures WordsAfter(s, s', p, lost)
  {
    forall q | IsPage(s.spaces, q) && q != p
      ensures IsPage(s'.spaces, q)
      ensures WordOf(s'.spaces, q) == WordOf(s.spaces, q)
              || (lost && WordOf(s.spaces, q) == FrameWord(s.cm.victim))
    {
      assert KeptBy(s, s1, f, q);
      SetWordAt(s1.spaces, p, FrameWord(w), q);
    }
  }

  // --------------------------------------------------------------------- the fault

  /** The slot holds an entry for the frame that changes hands. */
  predicate Stale(s: State, i: nat) {
    i < |s.tlb.slots| && s.tlb.slots[i].Maps? && s.tlb.slots[i].frame == s.cm.victim
  }

  /** The situations in which a fault returns with no stale entry: it replaces no page, some transfer
      slept, or the only slot that maps the frame changing hands is the one the fault overwrites,
      which it does when the page's contents arrive. */
  ghost predicate NoHazard(s: State, p: Pg, va: nat, env: Env)
    requires IsPage(s.spaces, p)
  {
    || !Replacing(s, p, va)
    || Flushed(s, p, va, env)
    || forall i :: Stale(s, i) ==> i == s.tlb.victim && Arrives(s.spaces, p, env)
  }

  lemma AgreesAfter(spaces: Spaces, spaces': Spaces, a: SpaceId, e: TlbEntry, p: Pg)
    requires Agrees(spaces, a, e, p) && SameLayout(spaces, spaces')
    requires IsPage(spaces', p) && WordOf(spaces', p) == WordOf(spaces, p)
    ensures Agrees(spaces', a, e, p)
  {
    LayoutPages(spaces, spaces', p);
  }

  /** State `s1` is `s` with page `p` made resident in frame `f`. */
  ghost predicate Settled(s: State, s1: State, p: Pg, va: nat, f: nat) {
    && IsPage(s.spaces, p) && AddrOf(s.spaces, p) == PageFrame(va)
    && SameLayout(s.spaces, s1.spaces) && Core(s1, |s1.cm.entries|) && 0 < f < |s1.cm.entries|
    && Holds(s1.spaces, p, FrameWord(f))
    && WordsAfter(s, s1, p, Replacing(s, p, va))
    && (Replacing(s, p, va) ==> f == s.cm.victim)
  }

  /** An entry for the frame agrees only as the entry of the page that was made resident. */
  lemma OnlyHolder(s: State, s1: State, p: Pg, va: nat, f: nat, a: SpaceId, e: TlbEntry, r: Pg)
    requires Settled(s, s1, p, va, f) && Agrees(s1.spaces, a, e, r) && e.frame == f
    ensures e.page == PageFrame(va)
  {
    TagsAreExact(f, 0);
    FrameHasOnePage(s1.spaces, s1.cm.entries, s1.slots, |s1.cm.entries|, p, r, FrameWord(f));
    LayoutPages(s.spaces, s1.spaces, p);
  }

  /** An entry that agreed still does, exactly unless its frame changed hands. */
  lemma EntryAgrees(s: State, s1: State, p: Pg, va: nat, f: nat, a: SpaceId, e: TlbEntry, q: Pg)
    requires Settled(s, s1, p, va, f) && Agrees(s.spaces, a, e, q) && e.page != PageFrame(va)
    ensures Mirrors(s1.spaces, a, e) <==> !(Replacing(s, p, va) && e.frame == s.cm.victim)
  {
    if Replacing(s, p, va) && e.frame == s.cm.victim {
      forall r
        ensures !Agrees(s1.spaces, a, e, r)
      {
        if Agrees(s1.spaces, a, e, r) { OnlyHolder(s, s1, p, va, f, a, e, r); }
      }
    } else {
      assert q != p;
      AgreesAfter(s.spaces, s1.spaces, a, e, q);
    }
  }

  lemma NoneAgree(spaces: Spaces, a: SpaceId, t: Tlb)
    ensures AllAgree(spaces, a, Invalidate(t).slots) && NoDuplicates(Invalidate(t).slots)
  {
  }

  /** A written entry that agrees leaves agreement to the other entries, and duplicates nothing. */
  lemma InstallAgrees(spaces: Spaces, a: SpaceId, t: Tlb, e: TlbEntry)
    requires TlbWf(t) && NoDuplicates(t.slots) && e.Maps? && Mirrors(spaces, a, e) && Find(t.slots, e.page).None?
    ensures NoDuplicates(Write(t, e).slots)
    ensures AllAgree(spaces, a, Write(t, e).slots) <==>
      forall i :: 0 <= i < |t.slots| && i != t.victim && t.slots[i].Maps? ==> Mirrors(spaces, a, t.slots[i])
  {
    var slots' := Write(t, e).slots;
    assert slots'[t.victim] == e;
    assert forall i :: 0 <= i < |slots'| && i != t.victim ==> slots'[i] == t.slots[i];
    if AllAgree(spaces, a, slots') {
      forall i | 0 <= i < |t.slots| && i != t.victim && t.slots[i].Maps?
        ensures Mirrors(spaces, a, t.slots[i])
      {
        assert slots'[i] == t.slots[i];
      }
    }
  }

  /** The TLB when the page is resident. */
  ghost function TlbAfter(s: State, p: Pg, va: nat, env: Env): Tlb
    requires IsPage(s.spaces, p)
  {
    if Flushed(s, p, va, env) then Invalidate(s.tlb) else s.tlb
  }

  /** The TLB a fault returns with: the entry is written only if the page's contents arrived. */
  function AtReturn(t: Tlb, e: TlbEntry, ok: bool): Tlb
    requires t.victim < |t.slots|
  {
    if ok then Write(t, e) else t
  }

  /** Entries agree after the page is resident exactly unless they are stale. */
  lemma SlotsAgree(s: State, s1: State, p: Pg, va: nat, f: nat)
    requires Settled(s, s1, p, va, f) && AllAgree(s.spaces, p.a, s.tlb.slots)
    requires Find(s.tlb.slots, PageFrame(va)).None?
    ensures forall i: nat :: i < |s.tlb.slots| && s.tlb.slots[i].Maps? ==>
      (Mirrors(s1.spaces, p.a, s.tlb.slots[i]) <==> !(Replacing(s, p, va) && Stale(s, i)))
  {
    var slots := s.tlb.slots;
    forall i: nat | i < |slots| && slots[i].Maps?
      ensures Mirrors(s1.spaces, p.a, slots[i]) <==> !(Replacing(s, p, va) && Stale(s, i))
    {
      assert Mirrors(s.spaces, p.a, slots[i]);
      var q :| Agrees(s.spaces, p.a, slots[i], q);
      EntryAgrees(s, s1, p, va, f, p.a, slots[i], q);
    }
  }

  /** The entries of the old TLB that the fault does not overwrite are exactly the ones that matter. */
  lemma ReturnAgrees(s: State, spaces: Spaces, a: SpaceId, lost: bool, ok: bool, e: TlbEntry)
    requires TlbWf(s.tlb) && NoDuplicates(s.tlb.slots)
    requires e.Maps? && Mirrors(spaces, a, e) && Find(s.tlb.slots, e.page).None?
    requires forall i: nat :: i < |s.tlb.slots| && s.tlb.slots[i].Maps? ==>
      (Mirrors(spaces, a, s.tlb.slots[i]) <==> !(lost && Stale(s, i)))
    ensures NoDuplicates(AtReturn(s.tlb, e, ok).slots)
    ensures AllAgree(spaces, a, AtReturn(s.tlb, e, ok).slots) <==>
      !lost || forall i :: Stale(s, i) ==> i == s.tlb.victim && ok
  {
    InstallAgrees(spaces, a, s.tlb, e);
    if lost && !forall i :: Stale(s, i) ==> i == s.tlb.victim && ok {
      var i: nat :| Stale(s, i) && !(i == s.tlb.victim && ok);
      assert !Mirrors(spaces, a, s.tlb.slots[i]);
    }
  }

  /** The entries of a flushed TLB cannot disagree. */
  lemma FlushedAgrees(spaces: Spaces, a: SpaceId, t: Tlb, ok: bool, e: TlbEntry)
    requires TlbWf(t) && e.Maps? && Mirrors(spaces, a, e)
    ensures
      var t' := AtReturn(Invalidate(t), e, ok);
      AllAgree(spaces, a, t'.slots) && NoDuplicates(t'.slots)
  {
    NoneAgree(spaces, a, t);
    assert forall i :: 0 <= i < |t.slots| ==> Invalidate(t).slots[i] == Invalid;
    if ok { InstallAgrees(spaces, a, Invalidate(t), e); }
  }

  /** Exactly when a fault returns with a TLB that agrees with the page table and names no page twice. */
  lemma ReturnCoherentIff(s: State, p: Pg, va: nat, env: Env)
    requires Core(s, |s.cm.entries|) && Coherent(s) && s.cur == Some(p.a) && IsPage(s.spaces, p)
    requires AddrOf(s.spaces, p) == PageFrame(va) && MakeResident(s, p, va, env).Ok?
    requires Find(s.tlb.slots, PageFrame(va)).None?
    ensures
      var (s1, f, ok) := MakeResident(s, p, va, env).value;
      var e := Maps(PageFrame(va), f, SegOf(s.spaces, p).Writable());
      var slots' := AtReturn(TlbAfter(s, p, va, env), e, ok).slots;
      && s1.tlb == TlbAfter(s, p, va, env)
      && (AllAgree(s1.spaces, p.a, slots') && NoDuplicates(slots') <==> NoHazard(s, p, va, env))
  {
    var (s1, f, ok) := MakeResident(s, p, va, env).value;
    MakeResidentSettles(s, p, va, env);
    SettledReturn(s, s1, p, va, f, env, Maps(PageFrame(va), f, SegOf(s.spaces, p).Writable()));
  }

  lemma SettledReturn(s: State, s1: State, p: Pg, va: nat, f: nat, env: Env, e: TlbEntry)
    requires Settled(s, s1, p, va, f) && TlbWf(s.tlb)
    requires AllAgree(s.spaces, p.a, s.tlb.slots) && NoDuplicates(s.tlb.slots)
    requires Find(s.tlb.slots, PageFrame(va)).None?
    requires e.Maps? && e.page == PageFrame(va) && Mirrors(s1.spaces, p.a, e)
    ensures
      var slots' := AtReturn(TlbAfter(s, p, va, env), e, Arrives(s.spaces, p, env)).slots;
      AllAgree(s1.spaces, p.a, slots') && NoDuplicates(slots') <==> NoHazard(s, p, va, env)
  {
    var ok := Arrives(s.spaces, p, env);
    if Flushed(s, p, va, env) {
      FlushedAgrees(s1.spaces, p.a, s.tlb, ok, e);
    } else {
      SlotsAgree(s, s1, p, va, f);
      ReturnAgrees(s, s1.spaces, p.a, Replacing(s, p, va), ok, e);
    }
  }

  lemma MakeResidentSettles(s: State, p: Pg, va: nat, env: Env)
    requires Core(s, |s.cm.entries|) && IsPage(s.spaces, p)
    requires AddrOf(s.spaces, p) == PageFrame(va) && MakeResident(s, p, va, env).Ok?
    ensures
      var (s1, f, ok) := MakeResident(s, p, va, env).value;
      && Settled(s, s1, p, va, f) && ok == Arrives(s.spaces, p, env)
      && s1.tlb == TlbAfter(s, p, va, env)
      && Mirrors(s1.spaces, p.a, Maps(PageFrame(va), f, SegOf(s.spaces, p).Writable()))
  {
    var (s1, f, ok) := MakeResident(s, p, va, env).value;
    MakeResidentKeeps(s, p, va, env);
    ResidentAndTlb(s, p, va, env);
    LayoutPages(s.spaces, s1.spaces, p);
    assert Agrees(s1.spaces, p.a, Maps(PageFrame(va), f, SegOf(s.spaces, p).Writable()), p);
  }
}
