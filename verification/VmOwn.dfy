/** Who owns what: user frames and page-table words are in one-to-one correspondence, and so
    are marked swap slots and tagged words. This module shows how each elementary change to
    the tables keeps the correspondence; it never looks at the FIFO links. */
module VmOwn {
  import opened Common
  import opened Coremap
  import opened CoremapBlocks
  import opened PageTable
  import opened Segment
  import opened AddrSpace
  import opened Vm

  type Spaces = map<SpaceId, Space>

  /** Page `p` carries word `w`. */
  predicate Holds(spaces: Spaces, p: Pg, w: Word) {
    IsPage(spaces, p) && WordOf(spaces, p) == w
  }

  /** The word of a page resident in frame `f`. */
  function FrameWord(f: nat): Word {
    f * PAGE_SIZE
  }

  /** The word of a page swapped to slot `t`. */
  function SlotWord(t: nat): (w: Word)
    ensures IsSwapped(w) && w == t * PAGE_SIZE + 1
  {
    assert t * PAGE_SIZE == 2 * (t * 2048);
    SwapWord(t * PAGE_SIZE)
  }

  /** A resident word names a user frame recorded for exactly the given page; a swapped word
      names a marked slot. */
  ghost predicate BackedWord(es: seq<Entry>, slots: set<nat>, a: SpaceId, addr: nat, w: Word) {
    && (IsResident(w) ==>
          && w % PAGE_SIZE == 0 && w / PAGE_SIZE < |es|
          && var e := es[w / PAGE_SIZE];
          e.kind.BusyUser? && e.space == Some(a) && e.vaddr == addr)
    && (IsSwapped(w) ==> w % PAGE_SIZE == 1 && w / PAGE_SIZE < SWAP_SLOTS && w / PAGE_SIZE in slots)
  }

  ghost predicate Backed(spaces: Spaces, es: seq<Entry>, slots: set<nat>, p: Pg)
    requires IsPage(spaces, p)
  {
    BackedWord(es, slots, p.a, AddrOf(spaces, p), WordOf(spaces, p))
  }

  predicate UserFrame(es: seq<Entry>, f: nat) {
    f < |es| && es[f].kind.BusyUser?
  }

  predicate InUse(slots: set<nat>, t: nat) {
    t in slots
  }

  /** The correspondence, for every user frame except possibly `except`. */
  ghost predicate Own(spaces: Spaces, es: seq<Entry>, slots: set<nat>, except: nat) {
    && (forall p :: IsPage(spaces, p) ==> Backed(spaces, es, slots, p))
    && (forall p, p', w {:trigger Holds(spaces, p, w), Holds(spaces, p', w)} ::
          Holds(spaces, p, w) && Holds(spaces, p', w) && IsSwapped(w) ==> p == p')
    && (forall f :: UserFrame(es, f) && f != except ==> exists p :: Holds(spaces, p, FrameWord(f)))
    && (forall t :: InUse(slots, t) ==> exists p :: Holds(spaces, p, SlotWord(t)))
  }

  ghost predicate AllWf(spaces: Spaces) {
    forall a :: a in spaces ==> SpaceWf(spaces[a])
  }

  // ---------------------------------------------------------------- changing a word

  lemma SetWordAt(spaces: Spaces, p: Pg, w: Word, q: Pg)
    requires IsPage(spaces, p)
    ensures IsPage(SetWord(spaces, p, w), q) <==> IsPage(spaces, q)
    ensures IsPage(spaces, q) ==>
      && WordOf(SetWord(spaces, p, w), q) == (if q == p then w else WordOf(spaces, q))
      && AddrOf(SetWord(spaces, p, w), q) == AddrOf(spaces, q)
      && SegOf(SetWord(spaces, p, w), q).(table := []) == SegOf(spaces, q).(table := [])
  {
  }

  lemma SetWordWf(spaces: Spaces, p: Pg, w: Word)
    requires AllWf(spaces) && IsPage(spaces, p)
    ensures AllWf(SetWord(spaces, p, w))
    ensures SetWord(spaces, p, w).Keys == spaces.Keys
  {
    TableChangeWf(spaces[p.a], p.sel, spaces[p.a].At(p.sel).table[p.index := w]);
  }

  lemma TableChangeWf(sp: Space, sel: Sel, table: seq<Word>)
    requires SpaceWf(sp) && |table| == sp.At(sel).NumPages()
    ensures SpaceWf(sp.WithTable(sel, table))
  {
    match sel
    case Code =>
    case Data =>
    case Stack =>
  }

  // --------------------------------------------------------------------- uniqueness

  /** A resident word identifies its page. */
  lemma FrameHasOnePage(spaces: Spaces, es: seq<Entry>, slots: set<nat>, except: nat, p: Pg, p': Pg, w: Word)
    requires AllWf(spaces) && Own(spaces, es, slots, except)
    requires Holds(spaces, p, w) && Holds(spaces, p', w) && IsResident(w)
    ensures p == p'
  {
    assert Backed(spaces, es, slots, p) && Backed(spaces, es, slots, p');
    assert p.a == p'.a && SpaceWf(spaces[p.a]);
    PageAddrInjective(spaces[p.a], p.sel, p.index, p'.sel, p'.index);
  }

  /** Ownership is a bijection: a frame is a user frame for a page exactly when that page's
      word holds the frame, and then for no other page. */
  lemma FrameOwnership(spaces: Spaces, es: seq<Entry>, slots: set<nat>, f: nat)
    requires AllWf(spaces) && Own(spaces, es, slots, |es|) && 0 < f < |es|
    ensures UserFrame(es, f) <==> exists p :: Holds(spaces, p, FrameWord(f))
    ensures forall p, p' :: Holds(spaces, p, FrameWord(f)) && Holds(spaces, p', FrameWord(f)) ==> p == p'
    ensures forall p :: Holds(spaces, p, FrameWord(f)) ==>
      es[f].kind.BusyUser? && es[f].space == Some(p.a) && es[f].vaddr == AddrOf(spaces, p)
  {
    TagsAreExact(f, 0);
    forall p | Holds(spaces, p, FrameWord(f))
      ensures es[f].kind.BusyUser? && es[f].space == Some(p.a) && es[f].vaddr == AddrOf(spaces, p)
    {
      assert Backed(spaces, es, slots, p);
      assert FrameWord(f) / PAGE_SIZE == f;
    }
    forall p, p' | Holds(spaces, p, FrameWord(f)) && Holds(spaces, p', FrameWord(f))
      ensures p == p'
    {
      FrameHasOnePage(spaces, es, slots, |es|, p, p', FrameWord(f));
    }
  }

  /** A slot is marked exactly when one page's word carries its offset. */
  lemma SlotOwnership(spaces: Spaces, es: seq<Entry>, slots: set<nat>, t: nat)
    requires Own(spaces, es, slots, |es|)
    ensures InUse(slots, t) <==> exists p :: Holds(spaces, p, SlotWord(t))
    ensures forall p, p' ::
      Holds(spaces, p, SlotWord(t)) && Holds(spaces, p', SlotWord(t)) ==> p == p'
  {
    TagsAreExact(0, t);
    forall p | Holds(spaces, p, SlotWord(t))
      ensures t in slots
    {
      assert Backed(spaces, es, slots, p);
    }
  }

  // ------------------------------------------------------------ elementary changes

  lemma SlotBacked(es: seq<Entry>, slots: set<nat>, a: SpaceId, addr: nat, t: nat)
    requires t in slots && t < SWAP_SLOTS
    ensures BackedWord(es, slots, a, addr, SlotWord(t))
  {
  }

  lemma FrameBacked(es: seq<Entry>, slots: set<nat>, a: SpaceId, addr: nat, f: nat)
    requires 0 < f < |es| && es[f].kind.BusyUser? && es[f].space == Some(a) && es[f].vaddr == addr
    ensures BackedWord(es, slots, a, addr, FrameWord(f)) && IsResident(FrameWord(f))
  {
    TagsAreExact(f, 0);
  }

  /** What a change elsewhere leaves to a page with word `w`: its frame keeps its record, its
      slot stays marked. */
  ghost predicate Undisturbed(es: seq<Entry>, es': seq<Entry>, slots': set<nat>, w: Word) {
    && (IsResident(w) ==>
          w / PAGE_SIZE < |es| && w / PAGE_SIZE < |es'| && SameMeta(es[w / PAGE_SIZE], es'[w / PAGE_SIZE]))
    && (IsSwapped(w) ==> w / PAGE_SIZE in slots')
  }

  /** Every page other than `p` is undisturbed, and a new swap word `w` is none of theirs. */
  ghost predicate OthersKept(spaces: Spaces, es: seq<Entry>, es': seq<Entry>, slots': set<nat>, p: Pg, w: Word) {
    forall q :: IsPage(spaces, q) && q != p ==>
      Undisturbed(es, es', slots', WordOf(spaces, q)) && (IsSwapped(w) ==> WordOf(spaces, q) != w)
  }

  /** Every user frame left is the new word's, or an old one that the old word did not name. */
  ghost predicate FramesKept(es: seq<Entry>, except: nat, was: Word, w: Word, es': seq<Entry>, except': nat) {
    forall f :: UserFrame(es', f) && f != except' ==>
      w == FrameWord(f) || (UserFrame(es, f) && f != except && was != FrameWord(f))
  }

  /** Every slot left is the new word's, or an old one that the old word did not name. */
  ghost predicate SlotsKept(slots: set<nat>, was: Word, w: Word, slots': set<nat>) {
    forall t :: InUse(slots', t) ==> w == SlotWord(t) || (InUse(slots, t) && was != SlotWord(t))
  }

  /** The word of page `p` changes to `w`, and frames and slots change with it. */
  lemma WordChange(
    spaces: Spaces, es: seq<Entry>, slots: set<nat>, except: nat,
    p: Pg, w: Word, es': seq<Entry>, slots': set<nat>, except': nat)
    requires AllWf(spaces) && Own(spaces, es, slots, except) && IsPage(spaces, p) && |es'| == |es|
    requires OthersKept(spaces, es, es', slots', p, w)
    requires BackedWord(es', slots', p.a, AddrOf(spaces, p), w)
    requires FramesKept(es, except, WordOf(spaces, p), w, es', except')
    requires SlotsKept(slots, WordOf(spaces, p), w, slots')
    ensures Own(SetWord(spaces, p, w), es', slots', except')
  {
    var spaces' := SetWord(spaces, p, w);
    forall q | IsPage(spaces', q)
      ensures Backed(spaces', es', slots', q)
    {
      SetWordAt(spaces, p, w, q);
      if q != p { assert Backed(spaces, es, slots, q); }
    }
    forall q, q', x | Holds(spaces', q, x) && Holds(spaces', q', x) && IsSwapped(x)
      ensures q == q'
    {
      SetWordAt(spaces, p, w, q);
      SetWordAt(spaces, p, w, q');
      assert q != p ==> Holds(spaces, q, x);
      assert q' != p ==> Holds(spaces, q', x);
    }
    forall f | UserFrame(es', f) && f != except'
      ensures exists q :: Holds(spaces', q, FrameWord(f))
    {
      if w == FrameWord(f) {
        SetWordAt(spaces, p, w, p);
        assert Holds(spaces', p, FrameWord(f));
      } else {
        var q :| Holds(spaces, q, FrameWord(f));
        SetWordAt(spaces, p, w, q);
        assert Holds(spaces', q, FrameWord(f));
      }
    }
    forall t | InUse(slots', t)
      ensures exists q :: Holds(spaces', q, SlotWord(t))
    {
      if w == SlotWord(t) {
        SetWordAt(spaces, p, w, p);
        assert Holds(spaces', p, SlotWord(t));
      } else {
        var q :| Holds(spaces, q, SlotWord(t));
        SetWordAt(spaces, p, w, q);
        assert Holds(spaces', q, SlotWord(t));
      }
    }
  }
}
