/** Page faults: making a page resident keeps ownership and changes the contents of no page. */
module VmFault {
  import opened Common
  import opened Coremap
  import opened CoremapBlocks
  import opened PageTable
  import opened Segment
  import opened AddrSpace
  import opened Tlb
  import opened Vm
  import opened VmOwn
  import opened VmView

  // --------------------------------------------------------------- filling a word

  /** The slots left when a page with word `w` comes back to memory. */
  function SlotsAfter(slots: set<nat>, w: Word): set<nat> {
    if IsSwapped(w) then slots - {w / PAGE_SIZE} else slots
  }

  /** A page that was not resident takes the frame that was waiting for it. */
  lemma OwnFilled(spaces: Spaces, es: seq<Entry>, slots: set<nat>, f: nat, p: Pg)
    requires AllWf(spaces) && Own(spaces, es, slots, f) && IsPage(spaces, p)
    requires 0 < f < |es| && es[f].kind.BusyUser? && es[f].space == Some(p.a) && es[f].vaddr == AddrOf(spaces, p)
    requires !es[0].kind.BusyUser? && !IsResident(WordOf(spaces, p))
    ensures Own(SetWord(spaces, p, FrameWord(f)), es, SlotsAfter(slots, WordOf(spaces, p)), |es|)
  {
    var was, w := WordOf(spaces, p), FrameWord(f);
    var slots' := SlotsAfter(slots, was);
    assert Backed(spaces, es, slots, p);
    FrameBacked(es, slots', p.a, AddrOf(spaces, p), f);
    assert OthersKept(spaces, es, es, slots', p, w) by {
      forall q | IsPage(spaces, q) && q != p
        ensures Undisturbed(es, es, slots', WordOf(spaces, q))
      {
        assert Backed(spaces, es, slots, q);
        if IsSwapped(WordOf(spaces, q)) { OtherSlotKept(spaces, es, slots, f, p, q); }
      }
    }
    assert FramesKept(es, f, was, w, es, |es|) by {
      forall g: nat | UserFrame(es, g) && g != f
        ensures was != FrameWord(g)
      {
        TagsAreExact(g, 0);
      }
    }
    assert SlotsKept(slots, was, w, slots') by {
      forall t: nat | InUse(slots', t)
        ensures InUse(slots, t) && was != SlotWord(t)
      {
      }
    }
    WordChange(spaces, es, slots, f, p, w, es, slots', |es|);
  }

  lemma OtherSlotKept(spaces: Spaces, es: seq<Entry>, slots: set<nat>, except: nat, p: Pg, q: Pg)
    requires Own(spaces, es, slots, except) && IsPage(spaces, p) && IsPage(spaces, q) && q != p
    requires IsSwapped(WordOf(spaces, q))
    ensures WordOf(spaces, q) / PAGE_SIZE in SlotsAfter(slots, WordOf(spaces, p))
  {
    assert Backed(spaces, es, slots, p) && Backed(spaces, es, slots, q);
    assert Holds(spaces, p, WordOf(spaces, p)) && Holds(spaces, q, WordOf(spaces, q));
  }

  // ------------------------------------------------------------ making it resident

  /** In state `s1` page `p` is resident in frame `f` with contents `page`, and every other page
      is as user code saw it in `s`. */
  ghost predicate MadeResident(s: State, s1: State, p: Pg, f: nat, page: Page) {
    && Core(s1, |s1.cm.entries|)
    && |s1.cm.entries| == |s.cm.entries|
    && SameLayout(s.spaces, s1.spaces)
    && s1.cur == s.cur
    && Holds(s1.spaces, p, FrameWord(f)) && 0 < f < |s1.ram|
    && View(s1, p) == page
    && (forall q :: IsPage(s.spaces, q) && q != p ==> SeenAlike(s, s1, f, q))
  }

  /** Page `q` shows the same contents, and has the same word unless it lost frame `f`. */
  ghost predicate SeenAlike(s: State, s1: State, f: nat, q: Pg) {
    && IsPage(s.spaces, q) && IsPage(s1.spaces, q)
    && View(s1, q) == View(s, q)
    && (WordOf(s1.spaces, q) == WordOf(s.spaces, q)
        || (WordOf(s.spaces, q) == FrameWord(f) && IsSwapped(WordOf(s1.spaces, q))))
  }

  /** The common end of a first touch and a swap-in. */
  lemma FillMakesResident(s: State, s1: State, s2: State, p: Pg, f: nat, page: Page)
    requires IsPage(s.spaces, p) && FrameReady(s, s1, p.a, AddrOf(s.spaces, p), f)
    requires !IsResident(WordOf(s.spaces, p)) && IsPage(s1.spaces, p)
    requires s2.cm == s1.cm && s2.swap == s1.swap && s2.cur == s1.cur && TlbWf(s2.tlb)
    requires s2.ram == s1.ram[f := page]
    requires s2.slots == SlotsAfter(s1.slots, WordOf(s1.spaces, p))
    requires s2.spaces == SetWord(s1.spaces, p, FrameWord(f))
    ensures MadeResident(s, s2, p, f, page)
  {
    WordUnchanged(s, s1, f, p);
    LayoutPages(s.spaces, s1.spaces, p);
    OwnFilled(s1.spaces, s1.cm.entries, s1.slots, f, p);
    SetWordWf(s1.spaces, p, FrameWord(f));
    SetWordLayout(s1.spaces, p, FrameWord(f));
    LayoutTrans(s.spaces, s1.spaces, s2.spaces);
    FilledPageSeen(s1, s2, p, f, page);
    OthersSeenAlike(s, s1, s2, p, f, page);
  }

  lemma WordUnchanged(s: State, s1: State, f: nat, p: Pg)
    requires KeptBy(s, s1, f, p) && 0 < f && !IsResident(WordOf(s.spaces, p))
    ensures WordOf(s1.spaces, p) == WordOf(s.spaces, p)
  {
    TagsAreExact(f, 0);
  }

  lemma FilledPageSeen(s1: State, s2: State, p: Pg, f: nat, page: Page)
    requires IsPage(s1.spaces, p) && 0 < f < |s1.ram|
    requires s2.spaces == SetWord(s1.spaces, p, FrameWord(f)) && s2.ram == s1.ram[f := page]
    ensures Holds(s2.spaces, p, FrameWord(f)) && View(s2, p) == page
  {
    SetWordAt(s1.spaces, p, FrameWord(f), p);
    TagsAreExact(f, 0);
  }

  lemma OthersSeenAlike(s: State, s1: State, s2: State, p: Pg, f: nat, page: Page)
    requires IsPage(s1.spaces, p) && 0 < f < |s1.ram|
    requires Own(s1.spaces, s1.cm.entries, s1.slots, f)
    requires forall q :: IsPage(s.spaces, q) ==> KeptBy(s, s1, f, q)
    requires s2.spaces == SetWord(s1.spaces, p, FrameWord(f))
    requires s2.swap == s1.swap && s2.ram == s1.ram[f := page]
    ensures forall q :: IsPage(s.spaces, q) && q != p ==> SeenAlike(s, s2, f, q)
  {
    forall q | IsPage(s.spaces, q) && q != p
      ensures SeenAlike(s, s2, f, q)
    {
      assert KeptBy(s, s1, f, q);
      assert Backed(s1.spaces, s1.cm.entries, s1.slots, q);
      FillLeavesOthers(s1, s2, p, f, page, q);
    }
  }

  lemma LayoutTrans(a: Spaces, b: Spaces, c: Spaces)
    requires SameLayout(a, b) && SameLayout(b, c)
    ensures SameLayout(a, c)
  {
    forall x, sel | x in a
      ensures SameSeg(a[x].At(sel), c[x].At(sel))
    {
      assert SameSeg(a[x].At(sel), b[x].At(sel)) && SameSeg(b[x].At(sel), c[x].At(sel));
    }
  }

  lemma FillLeavesOthers(s1: State, s2: State, p: Pg, f: nat, page: Page, q: Pg)
    requires IsPage(s1.spaces, p) && IsPage(s1.spaces, q) && q != p && 0 < f < |s1.ram|
    requires WordOf(s1.spaces, q) != FrameWord(f)
    requires IsResident(WordOf(s1.spaces, q)) ==> WordOf(s1.spaces, q) % PAGE_SIZE == 0
    requires s2.spaces == SetWord(s1.spaces, p, FrameWord(f))
    requires s2.swap == s1.swap && s2.ram == s1.ram[f := page]
    ensures IsPage(s2.spaces, q) && WordOf(s2.spaces, q) == WordOf(s1.spaces, q)
    ensures View(s2, q) == View(s1, q)
  {
    SetWordAt(s1.spaces, p, FrameWord(f), q);
    SetWordLayout(s1.spaces, p, FrameWord(f));
    LayoutPages(s1.spaces, s2.spaces, q);
    ImageIgnoresTable(SegOf(s1.spaces, q), SegOf(s2.spaces, q), q.index);
  }

  // ------------------------------------------------------------------ first touch

  /** What a page load leaves in the frame. */
  function LoadedPage(seg: Seg, index: nat, read: ReadOutcome): Page {
    Filled(seg, LoadOf(seg, index), BytesRead(seg, LoadOf(seg, index), read))
  }

  lemma LoadIgnoresTable(s: Seg, s': Seg, index: nat, read: ReadOutcome)
    requires SameSeg(s, s')
    ensures LoadOf(s, index) == LoadOf(s', index)
    ensures LoadSucceeds(s, LoadOf(s, index), read) <==> LoadSucceeds(s', LoadOf(s', index), read)
    ensures LoadedPage(s, index, read) == LoadedPage(s', index, read)
  {
    assert s' == s.(table := s'.table);
    var l, got := LoadOf(s, index), BytesRead(s, LoadOf(s, index), read);
    assert LoadedPage(s, index, read) == LoadedPage(s', index, read) by {
      var x, y := Filled(s, l, got), Filled(s', l, got);
      forall k | 0 <= k < PAGE_SIZE
        ensures x[k] == y[k]
      {
        assert x[k] == if l.dst <= k < l.dst + got then s.file[l.src + (k - l.dst)] else 0;
        assert y[k] == if l.dst <= k < l.dst + got then s'.file[l.src + (k - l.dst)] else 0;
      }
      assert x == y;
    }
  }

  /** A load that succeeds leaves the initial image of the page. */
  lemma LoadGivesImage(seg: Seg, index: nat, read: ReadOutcome)
    requires SegWf(seg) && index < seg.NumPages() && LoadSucceeds(seg, LoadOf(seg, index), read)
    ensures LoadedPage(seg, index, read) == PageImage(seg, index)
  {
    DemandIsEager(seg, index);
    var l := LoadOf(seg, index);
    if l.len == 0 {
      var page := Filled(seg, l, 0);
      assert page == ZeroPage();
    }
  }

  /** The image of a stack page is zero. */
  lemma StackImage(seg: Seg, index: nat)
    requires SegWf(seg) && index < seg.NumPages() && seg.fileSize == 0
    ensures PageImage(seg, index) == ZeroPage()
  {
    DemandIsEager(seg, index);
  }

  lemma SegmentIsWf(spaces: Spaces, p: Pg)
    requires AllWf(spaces) && IsPage(spaces, p)
    ensures SegWf(SegOf(spaces, p))
    ensures SegOf(spaces, p).perm.StackPerm? <==> p.sel.Stack?
    ensures p.sel.Stack? ==> SegOf(spaces, p).fileSize == 0
  {
    assert SpaceWf(spaces[p.a]);
    StackIsWf(spaces[p.a]);
  }

  /** What the first touch of a page shows: its initial image, or as much of it as arrived. */
  function FirstContents(s: State, p: Pg, env: Env, ok: bool): Page
    requires IsPage(s.spaces, p)
  {
    if ok then View(s, p) else LoadedPage(SegOf(s.spaces, p), p.index, env.read)
  }

  /** The frame contents a first touch stores. */
  function TouchPage(seg: Seg, index: nat, read: ReadOutcome): Page {
    if seg.perm.StackPerm? then ZeroPage() else LoadedPage(seg, index, read)
  }

  lemma FirstTouchUnfolds(s: State, s1: State, f: nat, p: Pg, va: nat, env: Env)
    requires IsPage(s.spaces, p) && FirstTouch(s, p, va, env).Ok?
    requires AllocUserPage(s, p.a, PageFrame(va), env.slept) == Ok((s1, f))
    requires SameLayout(s.spaces, s1.spaces) && IsPage(s1.spaces, p)
    ensures f < |s1.ram|
    ensures
      var (s', f', ok) := FirstTouch(s, p, va, env).value;
      var seg := SegOf(s.spaces, p);
      && f' == f && ok == (seg.perm.StackPerm? || LoadSucceeds(seg, LoadOf(seg, p.index), env.read))
      && s'.ram == s1.ram[f := TouchPage(seg, p.index, env.read)]
      && s'.spaces == SetWord(s1.spaces, p, FrameWord(f))
      && s'.slots == s1.slots && s'.cm == s1.cm && s'.swap == s1.swap && s'.cur == s1.cur
      && s'.tlb == (if !seg.perm.StackPerm? && env.readSlept then Invalidate(s1.tlb) else s1.tlb)
  {
    var s2 := s1.(spaces := SetWord(s1.spaces, p, FrameWord(f)));
    SetWordLayout(s1.spaces, p, FrameWord(f));
    LayoutTrans(s.spaces, s1.spaces, s2.spaces);
    LayoutPages(s.spaces, s2.spaces, p);
    LoadIgnoresTable(SegOf(s.spaces, p), SegOf(s2.spaces, p), p.index, env.read);
    assert AddWord(s1, p, FrameWord(f)) == Ok(s2);
  }

  /** A successful first touch stores what the page showed all along. */
  lemma TouchShowsImage(spaces: Spaces, p: Pg, read: ReadOutcome)
    requires AllWf(spaces) && IsPage(spaces, p)
    requires var seg := SegOf(spaces, p); seg.perm.StackPerm? || LoadSucceeds(seg, LoadOf(seg, p.index), read)
    ensures TouchPage(SegOf(spaces, p), p.index, read) == PageImage(SegOf(spaces, p), p.index)
  {
    SegmentIsWf(spaces, p);
    if p.sel.Stack? {
      StackImage(SegOf(spaces, p), p.index);
    } else {
      LoadGivesImage(SegOf(spaces, p), p.index, read);
    }
  }

  lemma FirstTouchKeeps(s: State, p: Pg, va: nat, env: Env)
    requires Core(s, |s.cm.entries|) && IsPage(s.spaces, p) && WordOf(s.spaces, p) == PT_EMPTY
    requires AddrOf(s.spaces, p) == PageFrame(va) && FirstTouch(s, p, va, env).Ok?
    ensures
      var (s', f, ok) := FirstTouch(s, p, va, env).value;
      MadeResident(s, s', p, f, FirstContents(s, p, env, ok))
  {
    var (s1, f) := AllocUserPage(s, p.a, PageFrame(va), env.slept).value;
    AllocReady(s, p.a, PageFrame(va), env.slept);
    ReadyPage(s, s1, p, f);
    FirstTouchUnfolds(s, s1, f, p, va, env);
    var (s', f', ok) := FirstTouch(s, p, va, env).value;
    FillMakesResident(s, s1, s', p, f, TouchPage(SegOf(s.spaces, p), p.index, env.read));
    if ok { TouchShowsImage(s.spaces, p, env.read); }
  }

  /** The page a frame was obtained for is still there, with its word. */
  lemma ReadyPage(s: State, s1: State, p: Pg, f: nat)
    requires IsPage(s.spaces, p) && !IsResident(WordOf(s.spaces, p)) && 0 < f
    requires forall q :: IsPage(s.spaces, q) ==> KeptBy(s, s1, f, q)
    ensures IsPage(s1.spaces, p) && WordOf(s1.spaces, p) == WordOf(s.spaces, p)
    ensures View(s1, p) == View(s, p)
  {
    assert KeptBy(s, s1, f, p);
    WordUnchanged(s, s1, f, p);
  }

  lemma BringBackUnfolds(s: State, s1: State, f: nat, p: Pg, va: nat, env: Env)
    requires IsPage(s.spaces, p) && BringBack(s, p, va, env).Ok?
    requires AllocUserPage(s, p.a, PageFrame(va), env.slept) == Ok((s1, f))
    requires IsPage(s1.spaces, p) && IsSwapped(WordOf(s1.spaces, p)) && WordOf(s1.spaces, p) % PAGE_SIZE == 1
    ensures f < |s1.ram|
    ensures
      var (s', f', ok) := BringBack(s, p, va, env).value;
      && f' == f && ok
      && s'.ram == s1.ram[f := View(s1, p)]
      && s'.spaces == SetWord(s1.spaces, p, FrameWord(f))
      && s'.slots == SlotsAfter(s1.slots, WordOf(s1.spaces, p))
      && s'.cm == s1.cm && s'.swap == s1.swap && s'.cur == s1.cur
      && s'.tlb == (if env.readSlept then Invalidate(s1.tlb) else s1.tlb)
  {
    var w := WordOf(s1.spaces, p);
    assert SwapOffset(w) / PAGE_SIZE == w / PAGE_SIZE;
    var s2 := SwapIn(s1, f, SwapOffset(w), env.readSlept).value;
    assert AddWord(s2, p, FrameWord(f)) == Ok(s2.(spaces := SetWord(s1.spaces, p, FrameWord(f))));
  }

  lemma BringBackKeeps(s: State, p: Pg, va: nat, env: Env)
    requires Core(s, |s.cm.entries|) && IsPage(s.spaces, p) && IsSwapped(WordOf(s.spaces, p))
    requires AddrOf(s.spaces, p) == PageFrame(va) && BringBack(s, p, va, env).Ok?
    ensures
      var (s', f, ok) := BringBack(s, p, va, env).value;
      ok && MadeResident(s, s', p, f, View(s, p))
  {
    var (s1, f) := AllocUserPage(s, p.a, PageFrame(va), env.slept).value;
    AllocReady(s, p.a, PageFrame(va), env.slept);
    ReadyPage(s, s1, p, f);
    assert Backed(s1.spaces, s1.cm.entries, s1.slots, p);
    BringBackUnfolds(s, s1, f, p, va, env);
    FillMakesResident(s, s1, BringBack(s, p, va, env).value.0, p, f, View(s, p));
  }

  lemma MakeResidentKeeps(s: State, p: Pg, va: nat, env: Env)
    requires Core(s, |s.cm.entries|) && IsPage(s.spaces, p)
    requires AddrOf(s.spaces, p) == PageFrame(va) && MakeResident(s, p, va, env).Ok?
    ensures
      var (s', f, ok) := MakeResident(s, p, va, env).value;
      MadeResident(s, s', p, f, FirstContents(s, p, env, ok))
  {
    var w := WordOf(s.spaces, p);
    if w == PT_EMPTY {
      FirstTouchKeeps(s, p, va, env);
    } else if IsSwapped(w) {
      BringBackKeeps(s, p, va, env);
    } else {
      assert Backed(s.spaces, s.cm.entries, s.slots, p);
      assert FrameWord(w / PAGE_SIZE) == w;
      ReloadKeeps(s, MakeResident(s, p, va, env).value.0, p);
    }
  }

  lemma ReloadKeeps(s: State, s': State, p: Pg)
    requires Core(s, |s.cm.entries|) && s' == s.(stats := s'.stats)
    requires IsPage(s.spaces, p) && IsResident(WordOf(s.spaces, p)) && WordOf(s.spaces, p) % PAGE_SIZE == 0
    requires WordOf(s.spaces, p) / PAGE_SIZE < |s.ram|
    ensures MadeResident(s, s', p, WordOf(s.spaces, p) / PAGE_SIZE, View(s, p))
  {
    assert SameLayout(s.spaces, s'.spaces);
    forall q | IsPage(s.spaces, q) && q != p
      ensures SeenAlike(s, s', WordOf(s.spaces, p) / PAGE_SIZE, q)
    {
    }
  }
}
