/** Page-table words and lookups. A word is 0 for a page never touched, a frame address
    for a resident page, or a swap offset with its lowest bit set for a swapped page. */
module PageTable {
  import opened Common

  type Word = nat

  const PT_EMPTY: Word := 0

  /** `w & PT_SWAPPED_MASK` is set. */
  predicate IsSwapped(w: Word) {
    w % 2 == 1
  }

  predicate IsResident(w: Word) {
    w != PT_EMPTY && !IsSwapped(w)
  }

  /** `offset | PT_SWAPPED_MASK`. */
  function SwapWord(offset: nat): Word {
    offset + 1 - offset % 2
  }

  /** `w & ~PT_SWAPPED_MASK`. */
  function SwapOffset(w: Word): nat {
    w - w % 2
  }

  /** `pt_get_entry_index`: the subtraction is unsigned, so an address below the base
      gives a large index and fails the assertion. */
  function EntryIndex(base: nat, numPages: nat, va: nat): Result<nat> {
    var index := Sub32(PageFrame(va), PageFrame(base)) / PAGE_SIZE;
    :- Check(index < numPages);
    Ok(index)
  }

  /** `pt_add_entry` at a given index; also `pt_swap_in`. */
  function AddEntry(words: seq<Word>, index: nat, paddr: nat): Result<seq<Word>>
    requires index < |words|
  {
    var was := words[index];
    :- Check(was == PT_EMPTY || IsSwapped(was));
    Ok(words[index := paddr])
  }

  /** `pt_swap_out` at a given index. */
  function SwapOutEntry(words: seq<Word>, index: nat, offset: nat): Result<seq<Word>>
    requires index < |words|
  {
    var was := words[index];
    :- Check(was != PT_EMPTY);
    :- Check(!IsSwapped(was));
    Ok(words[index := SwapWord(offset)])
  }

  /** The three meanings of a word never overlap: frame addresses other than frame 0 are
      resident, tagged slot offsets are swapped and give back their offset. */
  lemma TagsAreExact(f: nat, slot: nat)
    ensures f > 0 ==> IsResident(f * PAGE_SIZE)
    ensures IsSwapped(SwapWord(slot * PAGE_SIZE)) && SwapOffset(SwapWord(slot * PAGE_SIZE)) == slot * PAGE_SIZE
    ensures f * PAGE_SIZE != SwapWord(slot * PAGE_SIZE)
  {
    assert slot * PAGE_SIZE == 2 * (slot * 2048) && f * PAGE_SIZE == 2 * (f * 2048);
  }
}
