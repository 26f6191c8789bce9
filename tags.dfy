// The size_status word of a block header: the payload size (a multiple of 4)
// with the busy flag in its low bit.

module Tags {

  /** Bytes taken by one block header (a `next` link and the `size_status` word). */
  const H: int := 8

  /** A well-formed word: a non-negative multiple of 4, plus 1 when the block is busy. */
  ghost predicate WordOk(w: int) {
    w >= 0 && (w % 4 == 0 || w % 4 == 1)
  }

  /** The low bit of the word, as `size_status & 1` reads it: the word is odd. */
  predicate LowBit(w: int) {
    w % 4 == 1 || w % 4 == 3
  }

  /** The payload size a word records, read as the dump does: drop the low bit if it is set. */
  function Size(w: int): int {
    if LowBit(w) then w - 1 else w
  }

  /** Header plus payload: the number of arena bytes the block occupies. */
  function Span(w: int): int {
    H + Size(w)
  }

  /** isFree: the two low bits of the word are clear. */
  predicate IsFree(w: int)
    ensures WordOk(w) ==> (IsFree(w) <==> Size(w) == w)
  {
    w % 4 == 0
  }

  /** The word a header holds for a block of payload `size` that is busy or free. */
  function Word(size: int, busy: bool): (w: int)
    requires size >= 0 && size % 4 == 0
    ensures WordOk(w) && Size(w) == size && IsFree(w) == !busy
  {
    TagBit(size);
    if busy then size + 1 else size
  }

  /** Setting the low bit of a multiple of 4 gives a word whose remainder mod 4 is 1. */
  lemma TagBit(size: int)
    requires size % 4 == 0
    ensures !LowBit(size) && (size + 1) % 4 == 1 && LowBit(size + 1)
  {
  }

  /**
   * C's `%` by 4: it truncates toward zero, so a negative word leaves a
   * remainder in -3..0 where Dafny's `%` would leave 1..3. The remainder is
   * zero exactly when Dafny's is, so the isFree test reads the same either way.
   */
  function CRem4(w: int): (r: int)
    ensures w >= 0 ==> r == w % 4
    ensures w < 0 ==> -4 < r <= 0
    ensures r == 0 <==> w % 4 == 0
  {
    if w >= 0 then w % 4 else -((-w) % 4)
  }

  /** setAlloc: sets the busy bit of a free word; any other word is left as it is. */
  function MarkBusy(w: int): (r: int)
    ensures IsFree(w) ==> !IsFree(r) && Size(r) == Size(w)
    ensures !IsFree(w) ==> r == w
  {
    if CRem4(w) == 1 then w
    else if CRem4(w) == 0 then TagBit(w); w + 1
    else w
  }

  /**
   * setFree: clears the busy bit of a busy word (a positive word with
   * remainder 1); any other word, a negative one included, is left as it is.
   */
  function MarkFree(w: int): (r: int)
    ensures w > 0 && w % 4 == 1 ==> IsFree(r) && Size(r) == Size(w)
    ensures !(w > 0 && w % 4 == 1) ==> r == w
  {
    if CRem4(w) == 0 then w
    else if CRem4(w) == 1 then ClearBit(w); w - 1
    else w
  }

  /** Clearing the low bit of a word with remainder 1 leaves a multiple of 4. */
  lemma ClearBit(w: int)
    requires w % 4 == 1
    ensures LowBit(w) && (w - 1) % 4 == 0 && !LowBit(w - 1)
  {
    assert (w - 1) % 4 == 0;
    TagBit(w - 1);
  }

  /** setFree undoes setAlloc on a free word, and setAlloc undoes setFree on a busy one. */
  lemma MarkRoundTrip(w: int)
    requires WordOk(w)
    ensures IsFree(w) ==> MarkFree(MarkBusy(w)) == w
    ensures !IsFree(w) ==> MarkBusy(MarkFree(w)) == w
  {
  }

  /**
   * The exact-fit test of the allocator compares the whole word with a request
   * that is a multiple of 4: only a free word can pass it.
   */
  lemma ExactMatchIsFree(w: int, req: int)
    requires WordOk(w) && req % 4 == 0 && w == req
    ensures IsFree(w) && Size(w) == req
  {
  }
}
