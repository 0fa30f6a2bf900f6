/** Destroying an address space gives back all its frames and slots and nothing else. */
module VmDestroy {
  import opened Common
  import opened Coremap
  import opened CoremapBlocks
  import opened PageTable
  import opened Segment
  import opened AddrSpace
  import opened Tlb
  import opened Vm
  import opened VmOwn
  import opened VmView
  import opened VmFault

  // ------------------------------------------------------------- one word is cleared

  /** A swapped page gives its slot back. */
  lemma OwnSlotFreed(spaces: Spaces, es: seq<Entry>, slots: set<nat>, p: Pg)
    requires AllWf(spaces) && Own(spaces, es, slots, |es|) && IsPage(spaces, p)
    requires IsSwapped(WordOf(spaces, p))
    ensures Own(SetWord(spaces, p, PT_EMPTY), es, SlotsAfter(slots, WordOf(spaces, p)), |es|)
  {
    var was := WordOf(spaces, p);
    var slots' := SlotsAfter(slots, was);
    assert Backed(spaces, es, slots, p);
    assert OthersKept(spaces, es, es, slots', p, PT_EMPTY) by {
      forall q | IsPage(spaces, q) && q != p
        ensures Undisturbed(es, es, slots', WordOf(spaces, q))
      {
        assert Backed(spaces, es, slots, q);
        if IsSwapped(WordOf(spaces, q)) { OtherSlotKept(spaces, es, slots, |es|, p, q); }
      }
    }
    assert FramesKept(es, |es|, was, PT_EMPTY, es, |es|) by {
      forall g: nat | UserFrame(es, g)
        ensures was != FrameWord(g)
      {
        TagsAreExact(g, 0);
      }
    }
    assert SlotsKept(slots, was, PT_EMPTY, slots') by {
      forall t: nat | InUse(slots', t)
        ensures InUse(slots, t) && was != SlotWord(t)
      {
      }
    }
    WordChange(spaces, es, slots, |es|, p, PT_EMPTY, es, slots', |es|);
  }

  /** A resident page gives its frame back. */
  lemma OwnFrameFreed(spaces: Spaces, es: seq<Entry>, es': seq<Entry>, slots: set<nat>, p: Pg, f: nat)
    requires AllWf(spaces) && Own(spaces, es, slots, |es|) && Holds(spaces, p, FrameWord(f)) && 0 < f < |es|
    requires SameMetaExcept(es, es', f) && !es'[f].kind.BusyUser?
    ensures Own(SetWord(spaces, p, PT_EMPTY), es', slots, |es|)
  {
    TagsAreExact(f, 0);
    assert OthersKept(spaces, es, es', slots, p, PT_EMPTY) by {
      forall q | IsPage(spaces, q) && q != p
        ensures Undisturbed(es, es', slots, WordOf(spaces, q))
      {
        if WordOf(spaces, q) == FrameWord(f) {
          FrameHasOnePage(spaces, es, slots, |es|, p, q, FrameWord(f));
        }
        assert Backed(spaces, es, slots, q);
        OtherUndisturbed(es, es', slots, slots, q.a, AddrOf(spaces, q), WordOf(spaces, q), f);
      }
    }
    assert FramesKept(es, |es|, FrameWord(f), PT_EMPTY, es', |es|) by {
      forall g: nat | UserFrame(es', g)
        ensures UserFrame(es, g) && FrameWord(f) != FrameWord(g)
      {
        assert g != f && SameMeta(es[g], es'[g]);
      }
    }
    assert SlotsKept(slots, FrameWord(f), PT_EMPTY, slots) by {
      forall t: nat | InUse(slots, t)
        ensures FrameWord(f) != SlotWord(t)
      {
        TagsAreExact(f, t);
      }
    }
    WordChange(spaces, es, slots, |es|, p, PT_EMPTY, es', slots, |es|);
  }

  /** The tables may be cleared word by word while the real ones stay: `spaces` is the state of the
      tables with the words already dealt with taken as empty. */
  ghost predicate ClearInv(s: State, spaces: Spaces) {
    CmInv(s.cm) && AllWf(spaces) && Own(spaces, s.cm.entries, s.slots, |s.cm.entries|)
  }

  /** Clearing words changes the coremap, the slots and a counter. */
  predicate OnlyFrees(s: State, s': State) {
    && s' == s.(cm := s'.cm, slots := s'.slots, swapFrees := s'.swapFrees)
    && |s'.cm.entries| == |s.cm.entries|
  }

  lemma ClearWordKeeps(s: State, spaces: Spaces, p: Pg)
    requires ClearInv(s, spaces) && IsPage(spaces, p)
    requires ClearWord(s, WordOf(spaces, p)).Ok?
    ensures
      var s' := ClearWord(s, WordOf(spaces, p)).value;
      && OnlyFrees(s, s')
      && ClearInv(s', SetWord(spaces, p, PT_EMPTY))
  {
    var w := WordOf(spaces, p);
    SetWordWf(spaces, p, PT_EMPTY);
    if IsSwapped(w) {
      OwnSlotFreed(spaces, s.cm.entries, s.slots, p);
      assert SwapOffset(w) / PAGE_SIZE == w / PAGE_SIZE;
    } else if w != PT_EMPTY {
      ClearResident(s, spaces, p);
    } else {
      SetSameWord(spaces, p);
    }
  }

  lemma ClearResident(s: State, spaces: Spaces, p: Pg)
    requires ClearInv(s, spaces) && IsPage(spaces, p) && IsResident(WordOf(spaces, p))
    requires FreeUser(s.cm, WordOf(spaces, p) / PAGE_SIZE).Ok?
    ensures
      var cm' := FreeUser(s.cm, WordOf(spaces, p) / PAGE_SIZE).value;
      && |cm'.entries| == |s.cm.entries| && CmInv(cm')
      && Own(SetWord(spaces, p, PT_EMPTY), cm'.entries, s.slots, |s.cm.entries|)
  {
    var w := WordOf(spaces, p);
    var f := w / PAGE_SIZE;
    assert Backed(spaces, s.cm.entries, s.slots, p);
    assert w == FrameWord(f);
    FreeUserBlocks(s.cm, f);
    OwnFrameFreed(spaces, s.cm.entries, FreeUser(s.cm, f).value.entries, s.slots, p, f);
  }

  lemma SetSameWord(spaces: Spaces, p: Pg)
    requires IsPage(spaces, p)
    ensures SetWord(spaces, p, WordOf(spaces, p)) == spaces
  {
    var t := spaces[p.a].At(p.sel).table;
    assert t[p.index := t[p.index]] == t;
    assert spaces[p.a].WithTable(p.sel, t) == spaces[p.a];
  }

  // ---------------------------------------------------------------- a whole table

  /** The table with its first `i` words taken as empty. */
  function Cleared(words: seq<Word>, i: nat): seq<Word>
    requires i <= |words|
  {
    seq(|words|, k requires 0 <= k < |words| => if k < i then PT_EMPTY else words[k])
  }

  function ClearedTo(spaces: Spaces, a: SpaceId, sel: Sel, words: seq<Word>, i: nat): Spaces
    requires a in spaces && i <= |words|
  {
    spaces[a := spaces[a].WithTable(sel, Cleared(words, i))]
  }

  lemma ClearOneMore(spaces: Spaces, a: SpaceId, sel: Sel, words: seq<Word>, i: nat)
    requires a in spaces && i < |words|
    ensures
      var now := ClearedTo(spaces, a, sel, words, i);
      var p := Pg(a, sel, i);
      && IsPage(now, p) && WordOf(now, p) == words[i]
      && SetWord(now, p, PT_EMPTY) == ClearedTo(spaces, a, sel, words, i + 1)
  {
    var now := ClearedTo(spaces, a, sel, words, i);
    assert Cleared(words, i)[i := PT_EMPTY] == Cleared(words, i + 1);
    assert now[a].At(sel).table == Cleared(words, i);
    assert now[a].WithTable(sel, Cleared(words, i + 1)) == spaces[a].WithTable(sel, Cleared(words, i + 1));
  }

  lemma {:induction false} ClearFromKeeps(s: State, spaces: Spaces, a: SpaceId, sel: Sel, words: seq<Word>, i: nat)
    requires a in spaces && i <= |words| && ClearFrom(s, words, i).Ok?
    requires ClearInv(s, ClearedTo(spaces, a, sel, words, i))
    ensures
      var s' := ClearFrom(s, words, i).value;
      OnlyFrees(s, s') && ClearInv(s', ClearedTo(spaces, a, sel, words, |words|))
    decreases |words| - i
  {
    if i < |words| {
      ClearOneMore(spaces, a, sel, words, i);
      var p := Pg(a, sel, i);
      ClearWordKeeps(s, ClearedTo(spaces, a, sel, words, i), p);
      ClearFromKeeps(ClearWord(s, words[i]).value, spaces, a, sel, words, i + 1);
    }
  }

  lemma NothingCleared(spaces: Spaces, a: SpaceId, sel: Sel)
    requires a in spaces
    ensures ClearedTo(spaces, a, sel, spaces[a].At(sel).table, 0) == spaces
  {
    var words := spaces[a].At(sel).table;
    assert Cleared(words, 0) == words;
    assert spaces[a].WithTable(sel, words) == spaces[a];
  }

  /** Clearing the table of one segment. */
  lemma ClearTableKeeps(s: State, spaces: Spaces, a: SpaceId, sel: Sel)
    requires a in spaces && ClearInv(s, spaces)
    requires ClearFrom(s, spaces[a].At(sel).table, 0).Ok?
    ensures
      var words := spaces[a].At(sel).table;
      var s' := ClearFrom(s, words, 0).value;
      OnlyFrees(s, s') && ClearInv(s', ClearedTo(spaces, a, sel, words, |words|))
  {
    var words := spaces[a].At(sel).table;
    NothingCleared(spaces, a, sel);
    ClearFromKeeps(s, spaces, a, sel, words, 0);
  }

  // ----------------------------------------------------------------- the whole space

  /** An address space whose words are all empty can go. */
  lemma OwnSpaceGone(spaces: Spaces, es: seq<Entry>, slots: set<nat>, a: SpaceId)
    requires Own(spaces, es, slots, |es|) && a in spaces && |es| > 0 && !es[0].kind.BusyUser?
    requires forall p :: IsPage(spaces, p) && p.a == a ==> WordOf(spaces, p) == PT_EMPTY
    ensures Own(spaces - {a}, es, slots, |es|)
  {
    var spaces' := spaces - {a};
    forall p | IsPage(spaces', p)
      ensures Backed(spaces', es, slots, p)
    {
      assert IsPage(spaces, p) && Backed(spaces, es, slots, p);
    }
    forall p, q, w | Holds(spaces', p, w) && Holds(spaces', q, w) && IsSwapped(w)
      ensures p == q
    {
      assert Holds(spaces, p, w) && Holds(spaces, q, w);
    }
    forall f: nat | UserFrame(es, f)
      ensures exists p :: Holds(spaces', p, FrameWord(f))
    {
      var p :| Holds(spaces, p, FrameWord(f));
      assert Holds(spaces', p, FrameWord(f));
    }
    forall t: nat | InUse(slots, t)
      ensures exists p :: Holds(spaces', p, SlotWord(t))
    {
      var p :| Holds(spaces, p, SlotWord(t));
      assert Holds(spaces', p, SlotWord(t));
    }
  }

  /** The address space with all three tables taken as empty. */
  function Emptied(sp: Space): Space {
    Space(sp.code.(table := Cleared(sp.code.table, |sp.code.table|)),
          sp.data.(table := Cleared(sp.data.table, |sp.data.table|)),
          sp.stack.(table := Cleared(sp.stack.table, |sp.stack.table|)))
  }

  /** The three table loops one after the other. */
  lemma TablesCleared(s: State, s1: State, s2: State, s3: State, a: SpaceId)
    requires Core(s, |s.cm.entries|) && a in s.spaces
    requires ClearFrom(s, s.spaces[a].code.table, 0) == Ok(s1)
    requires ClearFrom(s1, s.spaces[a].data.table, 0) == Ok(s2)
    requires ClearFrom(s2, s.spaces[a].stack.table, 0) == Ok(s3)
    ensures OnlyFrees(s, s3) && ClearInv(s3, s.spaces[a := Emptied(s.spaces[a])])
  {
    var sp := s.spaces[a];
    ClearTableKeeps(s, s.spaces, a, Code);
    var spaces1 := ClearedTo(s.spaces, a, Code, sp.code.table, |sp.code.table|);
    assert spaces1[a].At(Data) == sp.data;
    ClearTableKeeps(s1, spaces1, a, Data);
    var spaces2 := ClearedTo(spaces1, a, Data, sp.data.table, |sp.data.table|);
    assert spaces2[a].At(Stack) == sp.stack;
    ClearTableKeeps(s2, spaces2, a, Stack);
    EmptiedInSteps(s.spaces, a);
  }

  lemma EmptiedInSteps(spaces: Spaces, a: SpaceId)
    requires a in spaces
    ensures
      var sp := spaces[a];
      var spaces1 := ClearedTo(spaces, a, Code, sp.code.table, |sp.code.table|);
      var spaces2 := ClearedTo(spaces1, a, Data, sp.data.table, |sp.data.table|);
      && ClearedTo(spaces2, a, Stack, sp.stack.table, |sp.stack.table|) == spaces[a := Emptied(sp)]
      && spaces[a := Emptied(sp)] - {a} == spaces - {a}
  {
  }

  lemma EmptiedWords(spaces: Spaces, a: SpaceId, p: Pg)
    requires a in spaces && p.a == a && IsPage(spaces[a := Emptied(spaces[a])], p)
    ensures WordOf(spaces[a := Emptied(spaces[a])], p) == PT_EMPTY
  {
  }

  /** Page `q` of `s'` is a page of `s` with the same word and the same contents. */
  ghost predicate Intact(s: State, s': State, q: Pg)
    requires IsPage(s'.spaces, q)
  {
    IsPage(s.spaces, q) && WordOf(s'.spaces, q) == WordOf(s.spaces, q) && View(s', q) == View(s, q)
  }

  /** `as_destroy` keeps ownership, and every page of every other space keeps its contents. */
  lemma DestroyKeeps(s: State, a: SpaceId)
    requires Core(s, |s.cm.entries|) && a in s.spaces && Destroy(s, a).Ok?
    ensures
      var s' := Destroy(s, a).value;
      && Core(s', |s'.cm.entries|)
      && s'.spaces == s.spaces - {a} && s'.tlb == s.tlb
      && s'.cur == (if s.cur == Some(a) then None else s.cur)
      && forall q :: IsPage(s'.spaces, q) ==> Intact(s, s', q)
  {
    var sp := s.spaces[a];
    var s1 := ClearFrom(s, sp.code.table, 0).value;
    var s2 := ClearFrom(s1, sp.data.table, 0).value;
    var s3 := ClearFrom(s2, sp.stack.table, 0).value;
    TablesCleared(s, s1, s2, s3, a);
    SpaceRemoved(s, s3, Destroy(s, a).value, a);
  }

  lemma SpaceRemoved(s: State, s3: State, s': State, a: SpaceId)
    requires Core(s, |s.cm.entries|) && a in s.spaces
    requires OnlyFrees(s, s3) && ClearInv(s3, s.spaces[a := Emptied(s.spaces[a])])
    requires s' == s3.(spaces := s3.spaces - {a}, cur := s'.cur)
    ensures Core(s', |s'.cm.entries|)
    ensures forall q :: IsPage(s'.spaces, q) ==> Intact(s, s', q)
  {
    OwnRemoved(s.spaces, s'.cm.entries, s'.slots, a);
    IntactElsewhere(s, s', a);
  }

  lemma OwnRemoved(spaces: Spaces, es: seq<Entry>, slots: set<nat>, a: SpaceId)
    requires a in spaces && |es| > 0 && !es[0].kind.BusyUser?
    requires Own(spaces[a := Emptied(spaces[a])], es, slots, |es|)
    ensures Own(spaces - {a}, es, slots, |es|)
  {
    var emptied := spaces[a := Emptied(spaces[a])];
    EmptiedInSteps(spaces, a);
    forall p | IsPage(emptied, p) && p.a == a
      ensures WordOf(emptied, p) == PT_EMPTY
    {
      EmptiedWords(spaces, a, p);
    }
    OwnSpaceGone(emptied, es, slots, a);
  }

  lemma IntactElsewhere(s: State, s': State, a: SpaceId)
    requires s'.spaces == s.spaces - {a} && s'.ram == s.ram && s'.swap == s.swap
    ensures forall q :: IsPage(s'.spaces, q) ==> Intact(s, s', q)
  {
    forall q | IsPage(s'.spaces, q)
      ensures Intact(s, s', q)
    {
    }
  }

  /** After `as_destroy` no frame is recorded for the space and every slot in use belongs to a page
      of another live space. */
  lemma DestroyLeavesNothing(s: State, a: SpaceId, f: nat, t: nat)
    requires Core(s, |s.cm.entries|) && a in s.spaces && Destroy(s, a).Ok?
    ensures
      var s' := Destroy(s, a).value;
      && (UserFrame(s'.cm.entries, f) ==>
            s'.cm.entries[f].space.Some? && s'.cm.entries[f].space.value in s'.spaces
            && s'.cm.entries[f].space != Some(a))
      && (InUse(s'.slots, t) ==> exists p :: Holds(s'.spaces, p, SlotWord(t)) && p.a != a)
  {
    DestroyKeeps(s, a);
    var s' := Destroy(s, a).value;
    if UserFrame(s'.cm.entries, f) {
      FrameOwnership(s'.spaces, s'.cm.entries, s'.slots, f);
    }
  }
}
