/** What user code sees: the contents of a page, wherever they are kept; and what obtaining a
    frame does to them, replacement included: nothing. */
module VmView {
  import opened Common
  import opened Coremap
  import opened CoremapBlocks
  import opened PageTable
  import opened Segment
  import opened AddrSpace
  import opened Tlb
  import opened Vm
  import opened VmOwn

  /** Sizes and layout. */
  ghost predicate Shape(s: State) {
    && CmInv(s.cm)
    && |s.ram| == |s.cm.entries| && |s.swap| == SWAP_SLOTS
    && TlbWf(s.tlb)
    && AllWf(s.spaces)
  }

  /** Shape and ownership, except possibly of one frame that is between owners. */
  ghost predicate Core(s: State, except: nat) {
    Shape(s) && Own(s.spaces, s.cm.entries, s.slots, except)
  }

  /** The contents of a page: its initial image if it was never touched, its swap slot if it is
      swapped out, its frame if it is resident. */
  function View(s: State, p: Pg): Page
    requires IsPage(s.spaces, p)
  {
    var w := WordOf(s.spaces, p);
    if w == PT_EMPTY then PageImage(SegOf(s.spaces, p), p.index)
    else if IsSwapped(w) then (if w / PAGE_SIZE < |s.swap| then s.swap[w / PAGE_SIZE] else ZeroPage())
    else (if w / PAGE_SIZE < |s.ram| then s.ram[w / PAGE_SIZE] else ZeroPage())
  }

  /** Same spaces, same segments, same number of pages; only words may differ. */
  ghost predicate SameLayout(spaces: Spaces, spaces': Spaces) {
    && spaces'.Keys == spaces.Keys
    && forall a, sel :: a in spaces ==> SameSeg(spaces[a].At(sel), spaces'[a].At(sel))
  }

  predicate SameSeg(s: Seg, s': Seg) {
    s.(table := []) == s'.(table := []) && s.NumPages() == s'.NumPages()
  }

  lemma SetWordLayout(spaces: Spaces, p: Pg, w: Word)
    requires IsPage(spaces, p)
    ensures SameLayout(spaces, SetWord(spaces, p, w))
  {
    var spaces' := SetWord(spaces, p, w);
    forall a, sel | a in spaces
      ensures SameSeg(spaces[a].At(sel), spaces'[a].At(sel))
    {
    }
  }

  lemma LayoutPages(spaces: Spaces, spaces': Spaces, p: Pg)
    requires SameLayout(spaces, spaces')
    ensures IsPage(spaces, p) <==> IsPage(spaces', p)
    ensures p.a in spaces ==> AddrOf(spaces, p) == AddrOf(spaces', p) && SameSeg(SegOf(spaces, p), SegOf(spaces', p))
  {
    if p.a in spaces { assert SameSeg(spaces[p.a].At(p.sel), spaces'[p.a].At(p.sel)); }
  }

  lemma ImageIgnoresTable(s: Seg, s': Seg, index: nat)
    requires SameSeg(s, s')
    ensures PageImage(s, index) == PageImage(s', index)
  {
    assert s' == s.(table := s'.table);
    forall k | 0 <= k < PAGE_SIZE
      ensures PageImage(s, index)[k] == PageImage(s', index)[k]
    {
      assert PageImage(s, index)[k] == ImageByte(s, s.PageAddr(index) + k);
      assert PageImage(s', index)[k] == ImageByte(s', s'.PageAddr(index) + k);
    }
  }

  // ------------------------------------------------------------ obtaining a frame

  /** State `s1` has a frame `f` ready for the page at `va` of space `a`: no page's word holds it,
      everything else is as in `s`, and every page still shows the same contents. */
  ghost predicate FrameReady(s: State, s1: State, a: SpaceId, va: nat, f: nat) {
    && Core(s1, f)
    && 0 < f < |s1.cm.entries| == |s.cm.entries|
    && s1.cm.entries[f].kind.BusyUser? && s1.cm.entries[f].space == Some(a) && s1.cm.entries[f].vaddr == va
    && SameLayout(s.spaces, s1.spaces)
    && s1.cur == s.cur
    && (forall q :: IsPage(s.spaces, q) ==> KeptBy(s, s1, f, q))
  }

  /** Page `q` keeps its contents; its word is unchanged unless it lost frame `f` to the swap file. */
  ghost predicate KeptBy(s: State, s1: State, f: nat, q: Pg) {
    && IsPage(s.spaces, q) && IsPage(s1.spaces, q)
    && View(s1, q) == View(s, q)
    && WordOf(s1.spaces, q) != FrameWord(f)
    && (WordOf(s1.spaces, q) == WordOf(s.spaces, q)
        || (WordOf(s.spaces, q) == FrameWord(f) && IsSwapped(WordOf(s1.spaces, q))))
  }

  /** A frame found free or taken from boot memory. */
  lemma FreeFrameReady(s: State, a: SpaceId, va: nat)
    requires Core(s, |s.cm.entries|)
    requires TakeUserFrame(s.cm, a, va).1 != 0
    requires Enqueue(TakeUserFrame(s.cm, a, va).0, TakeUserFrame(s.cm, a, va).1, a, va).Ok?
    ensures
      var (cm1, f) := TakeUserFrame(s.cm, a, va);
      FrameReady(s, s.(cm := Enqueue(cm1, f, a, va).value), a, va, f)
  {
    EnqueueBlocks(s.cm, a, va);
    var (cm1, f) := TakeUserFrame(s.cm, a, va);
    var cm' := Enqueue(cm1, f, a, va).value;
    NewFrameReady(s, s.(cm := cm'), a, va, f);
  }

  lemma NewFrameReady(s: State, s1: State, a: SpaceId, va: nat, f: nat)
    requires Core(s, |s.cm.entries|) && s1 == s.(cm := s1.cm) && CmInv(s1.cm)
    requires 0 < f < |s.cm.entries| == |s1.cm.entries| && !s.cm.entries[f].kind.BusyUser?
    requires SameMetaExcept(s.cm.entries, s1.cm.entries, f)
    requires s1.cm.entries[f].kind.BusyUser? && s1.cm.entries[f].space == Some(a) && s1.cm.entries[f].vaddr == va
    ensures FrameReady(s, s1, a, va, f)
  {
    OwnNewFrame(s.spaces, s.cm.entries, s1.cm.entries, s.slots, f);
    forall q | IsPage(s.spaces, q)
      ensures KeptBy(s, s1, f, q)
    {
    }
    assert SameLayout(s.spaces, s1.spaces);
  }

  /** A frame that becomes a user frame without a page yet is the one exception to ownership. */
  lemma OwnNewFrame(spaces: Spaces, es: seq<Entry>, es': seq<Entry>, slots: set<nat>, f: nat)
    requires Own(spaces, es, slots, |es|) && 0 < f < |es| && !es[f].kind.BusyUser?
    requires SameMetaExcept(es, es', f)
    ensures Own(spaces, es', slots, f)
    ensures forall q :: IsPage(spaces, q) ==> WordOf(spaces, q) != FrameWord(f)
  {
    TagsAreExact(f, 0);
    forall q | IsPage(spaces, q)
      ensures Backed(spaces, es', slots, q) && WordOf(spaces, q) != FrameWord(f)
    {
      assert Backed(spaces, es, slots, q);
    }
    forall g: nat | UserFrame(es', g) && g != f
      ensures exists p :: Holds(spaces, p, FrameWord(g))
    {
      assert SameMeta(es[g], es'[g]);
      assert UserFrame(es, g);
    }
  }

  // ---------------------------------------------------------------- replacement

  /** The page an eviction pushes out: the one that owns the victim frame. */
  lemma VictimPage(spaces: Spaces, es: seq<Entry>, slots: set<nat>, v: nat) returns (p: Pg)
    requires AllWf(spaces) && Own(spaces, es, slots, |es|) && 0 < v < |es| && es[v].kind.BusyUser?
    ensures Holds(spaces, p, FrameWord(v))
    ensures es[v].space == Some(p.a)
    ensures FindCoarse(spaces[p.a], es[v].vaddr) == Some(p.sel)
    ensures EntryIndex(SegOf(spaces, p).base, SegOf(spaces, p).NumPages(), es[v].vaddr) == Ok(p.index)
  {
    FrameOwnership(spaces, es, slots, v);
    assert UserFrame(es, v);
    p :| Holds(spaces, p, FrameWord(v));
    assert SpaceWf(spaces[p.a]);
    PageIsFound(spaces[p.a], p.sel, p.index);
  }

  /** The state after the victim page `p` has gone to `slot`. */
  function Evicted(s: State, cm: Cm, p: Pg, slot: nat, slept: bool): State
    requires IsPage(s.spaces, p) && slot < |s.swap| && s.cm.victim < |s.ram|
  {
    s.(
      cm := cm,
      slots := s.slots + {slot},
      swap := s.swap[slot := s.ram[s.cm.victim]],
      spaces := SetWord(s.spaces, p, SlotWord(slot)),
      tlb := if slept then Invalidate(s.tlb) else s.tlb,
      stats := s.stats.(
        swapWrites := s.stats.swapWrites + 1,
        invalidations := s.stats.invalidations + if slept then 1 else 0))
  }

  lemma EvictUnfolds(s: State, a: SpaceId, va: nat, slept: bool, p: Pg, slot: nat)
    requires Evict(s, a, va, slept).Ok? && IsPage(s.spaces, p)
    requires LeastFreeFrom(s.slots, 0) == Some(slot)
    requires var e := s.cm.entries[s.cm.victim];
      && e.space == Some(p.a)
      && FindCoarse(s.spaces[p.a], e.vaddr) == Some(p.sel)
      && EntryIndex(SegOf(s.spaces, p).base, SegOf(s.spaces, p).NumPages(), e.vaddr) == Ok(p.index)
    ensures Retarget(s.cm, a, va).Ok? && slot < |s.swap| && s.cm.victim < |s.ram|
    ensures Evict(s, a, va, slept).value ==
      (Evicted(s, Retarget(s.cm, a, va).value, p, slot, slept), s.cm.victim)
  {
    assert SwapWord(slot * PAGE_SIZE) == SlotWord(slot);
  }

  /** A replacement that succeeds finds the page of its victim, tags its word with the slot its
      contents went to, and changes no other word. */
  lemma EvictEffect(s: State, a: SpaceId, va: nat, slept: bool) returns (p: Pg, slot: nat)
    requires Core(s, |s.cm.entries|) && Evict(s, a, va, slept).Ok?
    ensures 0 < s.cm.victim < |s.cm.entries| && Holds(s.spaces, p, FrameWord(s.cm.victim))
    ensures slot < SWAP_SLOTS && slot !in s.slots
    ensures Retarget(s.cm, a, va).Ok?
    ensures Evict(s, a, va, slept).value ==
      (Evicted(s, Retarget(s.cm, a, va).value, p, slot, slept), s.cm.victim)
  {
    assert Retarget(s.cm, a, va).Ok?;
    RetargetBlocks(s.cm, a, va);
    p := VictimPage(s.spaces, s.cm.entries, s.slots, s.cm.victim);
    slot := LeastFreeFrom(s.slots, 0).value;
    EvictUnfolds(s, a, va, slept, p, slot);
  }

  lemma EvictReady(s: State, a: SpaceId, va: nat, slept: bool)
    requires Core(s, |s.cm.entries|) && Evict(s, a, va, slept).Ok?
    ensures FrameReady(s, Evict(s, a, va, slept).value.0, a, va, s.cm.victim)
    ensures Evict(s, a, va, slept).value.1 == s.cm.victim
  {
    var p, slot := EvictEffect(s, a, va, slept);
    var v, cm' := s.cm.victim, Retarget(s.cm, a, va).value;
    RetargetBlocks(s.cm, a, va);
    var s1 := Evicted(s, cm', p, slot, slept);
    OwnSwappedOut(s.spaces, s.cm.entries, cm'.entries, s.slots, p, v, slot);
    SetWordWf(s.spaces, p, SlotWord(slot));
    SetWordLayout(s.spaces, p, SlotWord(slot));
    AllKeptSwappingOut(s, s1, p, v, slot);
  }

  lemma AllKeptSwappingOut(s: State, s1: State, p: Pg, v: nat, slot: nat)
    requires AllWf(s.spaces) && Own(s.spaces, s.cm.entries, s.slots, |s.cm.entries|)
    requires 0 < v < |s.cm.entries| == |s.ram| && slot < |s.swap| && slot !in s.slots
    requires Holds(s.spaces, p, FrameWord(v))
    requires s1.spaces == SetWord(s.spaces, p, SlotWord(slot))
    requires s1.ram == s.ram && s1.swap == s.swap[slot := s.ram[v]]
    ensures forall q :: IsPage(s.spaces, q) ==> KeptBy(s, s1, v, q)
  {
    forall q | IsPage(s.spaces, q)
      ensures KeptBy(s, s1, v, q)
    {
      OtherPage(s.spaces, s.cm.entries, s.slots, p, q, v, slot);
      assert Backed(s.spaces, s.cm.entries, s.slots, q);
      KeptSwappingOut(s, s1, p, q, v, slot);
    }
  }

  lemma OtherPage(spaces: Spaces, es: seq<Entry>, slots: set<nat>, p: Pg, q: Pg, v: nat, slot: nat)
    requires AllWf(spaces) && Own(spaces, es, slots, |es|) && 0 < v < |es|
    requires Holds(spaces, p, FrameWord(v)) && IsPage(spaces, q)
    requires slot !in slots
    ensures q != p ==> WordOf(spaces, q) != FrameWord(v)
    ensures WordOf(spaces, q) != SlotWord(slot)
  {
    TagsAreExact(v, 0);
    if WordOf(spaces, q) == FrameWord(v) {
      FrameHasOnePage(spaces, es, slots, |es|, p, q, FrameWord(v));
    }
    assert Backed(spaces, es, slots, q);
    FreeSlotUnused(es, slots, q.a, AddrOf(spaces, q), WordOf(spaces, q), slot);
  }

  lemma FreeSlotUnused(es: seq<Entry>, slots: set<nat>, a: SpaceId, addr: nat, w: Word, slot: nat)
    requires BackedWord(es, slots, a, addr, w) && slot !in slots
    ensures w != SlotWord(slot)
  {
    assert SlotWord(slot) / PAGE_SIZE == slot;
  }

  lemma OtherUndisturbed(
    es: seq<Entry>, es': seq<Entry>, slots: set<nat>, slots': set<nat>, a: SpaceId, addr: nat, w: Word, v: nat)
    requires BackedWord(es, slots, a, addr, w) && w != FrameWord(v)
    requires SameMetaExcept(es, es', v) && slots <= slots'
    ensures Undisturbed(es, es', slots', w)
  {
  }

  /** Ownership after the victim's word has been tagged: its frame is between owners. */
  lemma OwnSwappedOut(spaces: Spaces, es: seq<Entry>, es': seq<Entry>, slots: set<nat>, p: Pg, v: nat, slot: nat)
    requires AllWf(spaces) && Own(spaces, es, slots, |es|) && 0 < v < |es|
    requires Holds(spaces, p, FrameWord(v)) && SameMetaExcept(es, es', v)
    requires slot < SWAP_SLOTS && slot !in slots
    ensures Own(SetWord(spaces, p, SlotWord(slot)), es', slots + {slot}, v)
  {
    TagsAreExact(v, slot);
    var w := SlotWord(slot);
    assert OthersKept(spaces, es, es', slots + {slot}, p, w) by {
      forall q | IsPage(spaces, q) && q != p
        ensures Undisturbed(es, es', slots + {slot}, WordOf(spaces, q)) && WordOf(spaces, q) != w
      {
        OtherPage(spaces, es, slots, p, q, v, slot);
        assert Backed(spaces, es, slots, q);
        OtherUndisturbed(es, es', slots, slots + {slot}, q.a, AddrOf(spaces, q), WordOf(spaces, q), v);
      }
    }
    assert FramesKept(es, |es|, FrameWord(v), w, es', v) by {
      forall f: nat | UserFrame(es', f) && f != v
        ensures UserFrame(es, f) && FrameWord(v) != FrameWord(f)
      {
        assert SameMeta(es[f], es'[f]);
      }
    }
    assert SlotsKept(slots, FrameWord(v), w, slots + {slot}) by {
      forall t: nat | InUse(slots + {slot}, t)
        ensures w == SlotWord(t) || (InUse(slots, t) && FrameWord(v) != SlotWord(t))
      {
        TagsAreExact(v, t);
      }
    }
    SlotBacked(es', slots + {slot}, p.a, AddrOf(spaces, p), slot);
    WordChange(spaces, es, slots, |es|, p, w, es', slots + {slot}, v);
  }

  /** The victim's contents are in the slot its word now names; no other page is touched. */
  lemma KeptSwappingOut(s: State, s1: State, p: Pg, q: Pg, v: nat, slot: nat)
    requires IsPage(s.spaces, q) && Holds(s.spaces, p, FrameWord(v)) && 0 < v < |s.ram| && slot < |s.swap|
    requires s1.spaces == SetWord(s.spaces, p, SlotWord(slot))
    requires s1.ram == s.ram && s1.swap == s.swap[slot := s.ram[v]]
    requires q != p ==> WordOf(s.spaces, q) != FrameWord(v)
    requires WordOf(s.spaces, q) != SlotWord(slot)
    requires IsSwapped(WordOf(s.spaces, q)) ==> WordOf(s.spaces, q) % PAGE_SIZE == 1
    ensures KeptBy(s, s1, v, q)
  {
    TagsAreExact(v, slot);
    SetWordAt(s.spaces, p, SlotWord(slot), q);
    if q != p {
      SetWordLayout(s.spaces, p, SlotWord(slot));
      LayoutPages(s.spaces, s1.spaces, q);
      ImageIgnoresTable(SegOf(s.spaces, q), SegOf(s1.spaces, q), q.index);
    }
  }

  /** `alloc_user_page`, with or without replacement, hides nothing from user code. */
  lemma AllocReady(s: State, a: SpaceId, va: nat, slept: bool)
    requires Core(s, |s.cm.entries|) && AllocUserPage(s, a, va, slept).Ok?
    ensures
      var (s1, f) := AllocUserPage(s, a, va, slept).value;
      FrameReady(s, s1, a, va, f)
  {
    TakeUserFrameBlocks(s.cm, a, va);
    if TakeUserFrame(s.cm, a, va).1 != 0 {
      FreeFrameReady(s, a, va);
    } else {
      assert s.(cm := TakeUserFrame(s.cm, a, va).0) == s;
      EvictReady(s, a, va, slept);
    }
  }
}
