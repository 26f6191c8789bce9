// The block chain of the arena. The chain is the sequence of the blocks'
// size_status words in link order; a block's `next` is the block after it in
// the sequence, and the last block has none. Block addresses are not stored:
// block i starts at the arena base plus the header and payload bytes of the
// blocks before it, which is how the source places every block it creates.

module Chain {
  import opened Tags

  datatype Option<T> = None | Some(value: T)

  /** Every header holds a well-formed word. */
  ghost predicate WordsOk(ws: seq<int>) {
    forall k :: 0 <= k < |ws| ==> WordOk(ws[k])
  }

  /** No free block is followed by a free block. */
  ghost predicate NoAdjacentFree(ws: seq<int>) {
    forall k :: 0 <= k < |ws| - 1 ==> !(IsFree(ws[k]) && IsFree(ws[k + 1]))
  }

  ghost predicate WellFormed(ws: seq<int>) {
    WordsOk(ws) && NoAdjacentFree(ws)
  }

  /** Header plus payload bytes of all blocks: the dump's total size. */
  function Total(ws: seq<int>): int {
    if ws == [] then 0 else Span(ws[0]) + Total(ws[1..])
  }

  /** Address of the header of block i (or, for i == |ws|, the end of the last block). */
  function Addr(base: int, ws: seq<int>, i: nat): int
    requires i <= |ws|
  {
    base + Total(ws[..i])
  }

  /** Address of the first payload byte of block i: just past its header. */
  function PayloadAddr(base: int, ws: seq<int>, i: nat): (p: int)
    requires i < |ws|
    ensures p + Size(ws[i]) == Addr(base, ws, i + 1)
  {
    AddrNext(base, ws, i);
    Addr(base, ws, i) + H
  }

  /** The successor of block i exists and is free. */
  predicate RightFree(ws: seq<int>, i: nat)
    requires i < |ws|
  {
    i + 1 < |ws| && IsFree(ws[i + 1])
  }

  /** The predecessor of block i exists and is free. */
  predicate LeftFree(ws: seq<int>, i: nat)
    requires i < |ws|
  {
    0 < i && IsFree(ws[i - 1])
  }

  // ---------------------------------------------------------------------------
  // Sums and addresses

  lemma {:induction false} TotalAppend(a: seq<int>, b: seq<int>)
    ensures Total(a + b) == Total(a) + Total(b)
  {
    if a == [] {
      assert a + b == b;
    } else {
      assert (a + b)[1..] == a[1..] + b;
      TotalAppend(a[1..], b);
    }
  }

  /** Every block takes at least a header's worth of the arena. */
  lemma {:induction false} TotalAtLeastHeaders(ws: seq<int>)
    requires WordsOk(ws)
    ensures Total(ws) >= H * |ws|
  {
    if ws != [] {
      TotalAtLeastHeaders(ws[1..]);
    }
  }

  /** The busy and free totals that the dump prints. */
  function BusyTotal(ws: seq<int>): (t: int)
    ensures WordsOk(ws) ==> 0 <= t <= Total(ws)
  {
    if ws == [] then 0 else (if LowBit(ws[0]) then Span(ws[0]) else 0) + BusyTotal(ws[1..])
  }

  function FreeTotal(ws: seq<int>): (t: int)
    ensures WordsOk(ws) ==> 0 <= t <= Total(ws)
  {
    if ws == [] then 0 else (if LowBit(ws[0]) then 0 else Span(ws[0])) + FreeTotal(ws[1..])
  }

  /** The dump's busy and free totals add up to the header plus payload of all blocks. */
  lemma {:induction false} DumpTotals(ws: seq<int>)
    ensures BusyTotal(ws) + FreeTotal(ws) == Total(ws)
  {
    if ws != [] {
      DumpTotals(ws[1..]);
    }
  }

  /** The end of the last block, from base 0, is the total. */
  lemma TotalIsEndAddr(ws: seq<int>)
    ensures Addr(0, ws, |ws|) == Total(ws)
  {
    assert ws[..|ws|] == ws;
  }

  /** One block ends where the next begins. */
  lemma AddrNext(base: int, ws: seq<int>, i: nat)
    requires i < |ws|
    ensures Addr(base, ws, i + 1) == Addr(base, ws, i) + Span(ws[i])
  {
    assert ws[..i + 1] == ws[..i] + [ws[i]];
    TotalAppend(ws[..i], [ws[i]]);
  }

  /**
   * The blocks tile the arena: the first starts at the base, each ends where
   * the next starts, and the last ends Total(ws) bytes past the base.
   */
  lemma Tiling(base: int, ws: seq<int>)
    ensures Addr(base, ws, 0) == base
    ensures forall i :: 0 <= i < |ws| ==> Addr(base, ws, i + 1) == Addr(base, ws, i) + Span(ws[i])
    ensures Addr(base, ws, |ws|) == base + Total(ws)
  {
    assert ws[..|ws|] == ws;
    forall i | 0 <= i < |ws|
      ensures Addr(base, ws, i + 1) == Addr(base, ws, i) + Span(ws[i])
    {
      AddrNext(base, ws, i);
    }
  }

  /** Addresses strictly increase along the chain, by at least a header per block. */
  lemma AddrIncreasing(base: int, ws: seq<int>, i: nat, j: nat)
    requires WordsOk(ws) && i < j <= |ws|
    ensures Addr(base, ws, i) + H * (j - i) <= Addr(base, ws, j)
  {
    assert ws[..j] == ws[..i] + ws[i..j];
    TotalAppend(ws[..i], ws[i..j]);
    TotalAtLeastHeaders(ws[i..j]);
  }

  /** The payload of block i lies inside it, right after its header, and fills it. */
  lemma PayloadFillsBlock(base: int, ws: seq<int>, i: nat)
    requires WordsOk(ws) && i < |ws|
    ensures Addr(base, ws, i) < PayloadAddr(base, ws, i)
    ensures PayloadAddr(base, ws, i) + Size(ws[i]) == Addr(base, ws, i + 1)
  {
    AddrNext(base, ws, i);
  }

  /** No two blocks share a payload address. */
  lemma PayloadInjective(base: int, ws: seq<int>, i: nat, j: nat)
    requires WordsOk(ws) && i < |ws| && j < |ws| && i != j
    ensures PayloadAddr(base, ws, i) != PayloadAddr(base, ws, j)
  {
    if i < j {
      AddrIncreasing(base, ws, i, j);
    } else {
      AddrIncreasing(base, ws, j, i);
    }
  }

  /**
   * Two chains that agree from positions m and n on, with the same total
   * before those positions, place the blocks of the common tail at the same
   * addresses.
   */
  lemma SameTailSameAddr(base: int, a: seq<int>, m: nat, b: seq<int>, n: nat, t: nat)
    requires m <= |a| && n <= |b| && a[m..] == b[n..]
    requires Total(a[..m]) == Total(b[..n])
    requires t <= |a| - m
    ensures Addr(base, a, m + t) == Addr(base, b, n + t)
  {
    assert a[..m + t] == a[..m] + a[m..][..t];
    assert b[..n + t] == b[..n] + b[n..][..t];
    TotalAppend(a[..m], a[m..][..t]);
    TotalAppend(b[..n], b[n..][..t]);
  }

  /** Replacing blocks lo..hi by the single word x keeps what is before and after them. */
  lemma Splice(ws: seq<int>, lo: nat, hi: nat, x: int)
    requires lo < hi <= |ws|
    ensures |ws[..lo] + [x] + ws[hi..]| == |ws| - (hi - lo) + 1
    ensures (ws[..lo] + [x] + ws[hi..])[..lo] == ws[..lo]
    ensures (ws[..lo] + [x] + ws[hi..])[lo] == x
    ensures (ws[..lo] + [x] + ws[hi..])[lo + 1..] == ws[hi..]
  {
    var r := ws[..lo] + [x] + ws[hi..];
    assert r[..lo] == ws[..lo];
    assert r[lo + 1..] == ws[hi..];
  }

  // ---------------------------------------------------------------------------
  // Allocation: what happens to the chosen block

  /** The leftover has room for a new header and at least 4 bytes of payload. */
  predicate SplitFits(w: int, req: int) {
    w - req >= 4 + H
  }

  /** Number of blocks an allocation adds to the chain: one on a split. */
  function Added(w: int, req: int): nat {
    if SplitFits(w, req) then 1 else 0
  }

  /**
   * The chain after the free block i is handed out for the (rounded) request
   * `req`: when the leftover has room for a header and 4 bytes, block i shrinks
   * to the request and a new free block of the leftover minus a header follows
   * it; otherwise block i keeps its whole size. Block i becomes busy.
   */
  function Place(ws: seq<int>, i: nat, req: int): (r: seq<int>)
    requires i < |ws| && IsFree(ws[i]) && req % 4 == 0 && 0 < req <= ws[i]
    ensures |r| == |ws| + Added(ws[i], req)
    ensures i < |r| && !IsFree(r[i])
  {
    var leftover := ws[i] - req;
    if leftover >= 4 + H then
      ws[..i] + [MarkBusy(req), leftover - H] + ws[i + 1..]
    else
      ws[..i] + [MarkBusy(req + leftover)] + ws[i + 1..]
  }

  /**
   * Allocation changes only block i: the blocks before it and after it keep
   * their words, block i becomes busy with exactly the request (split) or its
   * whole size (absorb), and a split inserts one free block holding the
   * leftover minus a header.
   */
  lemma PlaceShape(ws: seq<int>, i: nat, req: int)
    requires WordsOk(ws)
    requires i < |ws| && IsFree(ws[i]) && req % 4 == 0 && 0 < req <= ws[i]
    ensures |Place(ws, i, req)| == |ws| + Added(ws[i], req)
    ensures Place(ws, i, req)[..i] == ws[..i]
    ensures Place(ws, i, req)[i + 1 + Added(ws[i], req)..] == ws[i + 1..]
    ensures WordOk(Place(ws, i, req)[i]) && !IsFree(Place(ws, i, req)[i])
    ensures Size(Place(ws, i, req)[i]) == if SplitFits(ws[i], req) then req else ws[i]
    ensures SplitFits(ws[i], req) ==>
      WordOk(Place(ws, i, req)[i + 1]) && IsFree(Place(ws, i, req)[i + 1])
      && Size(Place(ws, i, req)[i + 1]) == ws[i] - req - H
  {
    var r := Place(ws, i, req);
    var busy := if SplitFits(ws[i], req) then req else ws[i];
    TagBit(busy);
    if SplitFits(ws[i], req) {
      assert r == ws[..i] + [busy + 1, ws[i] - req - H] + ws[i + 1..];
      assert (ws[i] - req - H) % 4 == 0;
    } else {
      assert r == ws[..i] + [busy + 1] + ws[i + 1..];
    }
    assert r[..i] == ws[..i];
    assert r[i + 1 + Added(ws[i], req)..] == ws[i + 1..];
  }

  /**
   * Allocation moves no block: block i keeps its address, a split remainder
   * starts right after the request's payload bytes, and every later block
   * keeps its address.
   */
  lemma PlaceAddresses(base: int, ws: seq<int>, i: nat, req: int)
    requires WordsOk(ws)
    requires i < |ws| && IsFree(ws[i]) && req % 4 == 0 && 0 < req <= ws[i]
    ensures Addr(base, Place(ws, i, req), i) == Addr(base, ws, i)
    ensures SplitFits(ws[i], req) ==> Addr(base, Place(ws, i, req), i + 1) == Addr(base, ws, i) + H + req
    ensures forall k :: i + 1 <= k <= |ws| ==>
      Addr(base, Place(ws, i, req), k + Added(ws[i], req)) == Addr(base, ws, k)
  {
    var r := Place(ws, i, req);
    var d := Added(ws[i], req);
    PlaceShape(ws, i, req);
    AddrNext(base, r, i);
    AddrNext(base, ws, i);
    if d == 1 {
      AddrNext(base, r, i + 1);
    }
    assert Addr(base, r, i + 1 + d) == Addr(base, ws, i + 1);
    forall k | i + 1 <= k <= |ws|
      ensures Addr(base, r, k + d) == Addr(base, ws, k)
    {
      SameTailSameAddr(base, r, i + 1 + d, ws, i + 1, k - (i + 1));
    }
  }

  /** Allocation keeps the arena's total size. */
  lemma PlaceKeepsTotal(ws: seq<int>, i: nat, req: int)
    requires WordsOk(ws)
    requires i < |ws| && IsFree(ws[i]) && req % 4 == 0 && 0 < req <= ws[i]
    ensures Total(Place(ws, i, req)) == Total(ws)
  {
    var r := Place(ws, i, req);
    PlaceAddresses(0, ws, i, req);
    assert Addr(0, r, |ws| + Added(ws[i], req)) == Addr(0, ws, |ws|);
    TotalIsEndAddr(r);
    TotalIsEndAddr(ws);
  }

  /** Allocation keeps every word well formed and no two adjacent blocks free. */
  lemma PlaceKeepsWellFormed(ws: seq<int>, i: nat, req: int)
    requires WellFormed(ws)
    requires i < |ws| && IsFree(ws[i]) && req % 4 == 0 && 0 < req <= ws[i]
    ensures WellFormed(Place(ws, i, req))
  {
    var r := Place(ws, i, req);
    var d := Added(ws[i], req);
    PlaceShape(ws, i, req);
    assert forall k :: 0 <= k < i ==> r[k] == ws[k];
    assert forall k :: i + d < k < |r| ==> r[k] == ws[k - d];
    assert i + 1 < |ws| ==> !IsFree(ws[i + 1]);
  }

  // ---------------------------------------------------------------------------
  // Release: what happens to the freed block and its neighbours

  /**
   * The chain after busy block i is freed: it is marked free, a free successor
   * is absorbed into it (header and payload) and unlinked, and then a free
   * predecessor absorbs it the same way.
   */
  function Release(ws: seq<int>, i: nat): (r: seq<int>)
    requires i < |ws|
    ensures |r| == |ws| - (MergeHi(ws, i) - MergeLo(ws, i)) + 1
  {
    var freed := MarkFree(ws[i]);
    if LeftFree(ws, i) && RightFree(ws, i) then
      ws[..i - 1] + [ws[i - 1] + H + freed + H + ws[i + 1]] + ws[i + 2..]
    else if LeftFree(ws, i) then
      ws[..i - 1] + [ws[i - 1] + H + freed] + ws[i + 1..]
    else if RightFree(ws, i) then
      ws[..i] + [freed + H + ws[i + 1]] + ws[i + 2..]
    else
      ws[..i] + [freed] + ws[i + 1..]
  }

  /** Two free words merged with the header between them make a free word. */
  lemma FreeSum(a: int, b: int)
    requires WordOk(a) && IsFree(a) && WordOk(b) && IsFree(b)
    ensures WordOk(a + H + b) && IsFree(a + H + b)
  {
  }

  /** First index of the blocks that a release of block i merges. */
  function MergeLo(ws: seq<int>, i: nat): nat
    requires i < |ws|
  {
    if LeftFree(ws, i) then i - 1 else i
  }

  /** One past the last index of the blocks that a release of block i merges. */
  function MergeHi(ws: seq<int>, i: nat): nat
    requires i < |ws|
  {
    if RightFree(ws, i) then i + 2 else i + 1
  }

  /**
   * Release replaces blocks MergeLo..MergeHi (the freed block with its free
   * neighbours) by one free block and leaves every block before and after
   * them as it was.
   */
  lemma ReleaseShape(ws: seq<int>, i: nat)
    requires WordsOk(ws) && i < |ws| && !IsFree(ws[i])
    ensures MergeLo(ws, i) <= i < MergeHi(ws, i) <= |ws|
    ensures |Release(ws, i)| == |ws| - (MergeHi(ws, i) - MergeLo(ws, i)) + 1
    ensures Release(ws, i)[..MergeLo(ws, i)] == ws[..MergeLo(ws, i)]
    ensures Release(ws, i)[MergeLo(ws, i) + 1..] == ws[MergeHi(ws, i)..]
    ensures WordOk(Release(ws, i)[MergeLo(ws, i)]) && IsFree(Release(ws, i)[MergeLo(ws, i)])
  {
    var freed := MarkFree(ws[i]);
    var lo, hi := MergeLo(ws, i), MergeHi(ws, i);
    var x := if LeftFree(ws, i) && RightFree(ws, i) then ws[i - 1] + H + freed + H + ws[i + 1]
      else if LeftFree(ws, i) then ws[i - 1] + H + freed
      else if RightFree(ws, i) then freed + H + ws[i + 1]
      else freed;
    assert Release(ws, i) == ws[..lo] + [x] + ws[hi..];
    assert WordOk(x) && IsFree(x) by {
      assert IsFree(freed) && freed >= 0;
      if LeftFree(ws, i) {
        FreeSum(ws[i - 1], freed);
      }
      if RightFree(ws, i) {
        FreeSum(freed, ws[i + 1]);
      }
      if LeftFree(ws, i) && RightFree(ws, i) {
        FreeSum(ws[i - 1] + H + freed, ws[i + 1]);
      }
    }
    Splice(ws, lo, hi, x);
  }

  /**
   * Release moves no block: the merged block starts where the first merged
   * block started and ends where the last one ended, so it covers exactly
   * their bytes, and every later block keeps its address.
   */
  lemma ReleaseAddresses(base: int, ws: seq<int>, i: nat)
    requires WordsOk(ws) && i < |ws| && !IsFree(ws[i])
    ensures Addr(base, Release(ws, i), MergeLo(ws, i)) == Addr(base, ws, MergeLo(ws, i))
    ensures forall k :: MergeHi(ws, i) <= k <= |ws| ==>
      Addr(base, Release(ws, i), k - (MergeHi(ws, i) - MergeLo(ws, i) - 1)) == Addr(base, ws, k)
  {
    var r := Release(ws, i);
    var lo, hi := MergeLo(ws, i), MergeHi(ws, i);
    ReleaseShape(ws, i);
    AddrNext(base, r, lo);
    AddrNext(base, ws, i);
    if LeftFree(ws, i) {
      AddrNext(base, ws, i - 1);
    }
    if RightFree(ws, i) {
      AddrNext(base, ws, i + 1);
    }
    assert Addr(base, r, lo + 1) == Addr(base, ws, hi);
    forall k | hi <= k <= |ws|
      ensures Addr(base, r, k - (hi - lo - 1)) == Addr(base, ws, k)
    {
      SameTailSameAddr(base, r, lo + 1, ws, hi, k - hi);
    }
  }

  /** Release keeps the arena's total size. */
  lemma ReleaseKeepsTotal(ws: seq<int>, i: nat)
    requires WordsOk(ws) && i < |ws| && !IsFree(ws[i])
    ensures Total(Release(ws, i)) == Total(ws)
  {
    var r := Release(ws, i);
    var lo, hi := MergeLo(ws, i), MergeHi(ws, i);
    ReleaseShape(ws, i);
    ReleaseAddresses(0, ws, i);
    assert |ws| - (hi - lo - 1) == |r|;
    assert Addr(0, r, |r|) == Addr(0, ws, |ws|);
    assert r[..|r|] == r;
    assert ws[..|ws|] == ws;
  }

  /** Release keeps every word well formed and restores "no two adjacent blocks free". */
  lemma ReleaseKeepsWellFormed(ws: seq<int>, i: nat)
    requires WellFormed(ws) && i < |ws| && !IsFree(ws[i])
    ensures WellFormed(Release(ws, i))
  {
    var r := Release(ws, i);
    var lo, hi := MergeLo(ws, i), MergeHi(ws, i);
    ReleaseShape(ws, i);
    assert forall k :: 0 <= k < lo ==> r[k] == ws[k];
    assert forall k :: lo < k < |r| ==> r[k] == ws[k - lo - 1 + hi];
    assert lo > 0 ==> !IsFree(ws[lo - 1]);
    assert hi < |ws| ==> !IsFree(ws[hi]);
  }

  /**
   * After block i is released, no busy block has block i's payload address:
   * the block at that address is the merged free block, and every other block
   * lies at a different address. So a second release of the same pointer finds
   * no busy block to free.
   */
  lemma ReleaseLeavesNoBusyBlockAt(base: int, ws: seq<int>, i: nat)
    requires WellFormed(ws) && i < |ws| && !IsFree(ws[i])
    ensures forall k :: 0 <= k < |Release(ws, i)| ==>
      (PayloadAddr(base, Release(ws, i), k) == PayloadAddr(base, ws, i) ==> IsFree(Release(ws, i)[k]))
  {
    var r := Release(ws, i);
    var lo, hi := MergeLo(ws, i), MergeHi(ws, i);
    ReleaseShape(ws, i);
    ReleaseAddresses(base, ws, i);
    ReleaseKeepsWellFormed(ws, i);
    forall k | 0 <= k < |r| && k != lo
      ensures PayloadAddr(base, r, k) != PayloadAddr(base, ws, i)
    {
      if k < lo {
        assert r[..k] == ws[..k] by {
          assert r[..k] == r[..lo][..k];
          assert ws[..k] == ws[..lo][..k];
        }
        PayloadInjective(base, ws, k, i);
      } else {
        var j := k + (hi - lo - 1);
        assert hi <= j < |ws|;
        assert Addr(base, r, k) == Addr(base, ws, j);
        PayloadInjective(base, ws, j, i);
      }
    }
  }

  /**
   * Freeing a block straight after allocating it restores the chain, whenever
   * the chain was well formed: the split remainder (if any) is merged back and
   * neither neighbour of a free block can be free. The block keeps its payload
   * address throughout.
   */
  lemma ReleaseUndoesPlace(base: int, ws: seq<int>, i: nat, req: int)
    requires WellFormed(ws)
    requires i < |ws| && IsFree(ws[i]) && req % 4 == 0 && 0 < req <= ws[i]
    ensures i < |Place(ws, i, req)|
    ensures PayloadAddr(base, Place(ws, i, req), i) == PayloadAddr(base, ws, i)
    ensures !IsFree(Place(ws, i, req)[i])
    ensures Release(Place(ws, i, req), i) == ws
  {
    var p := Place(ws, i, req);
    PlaceShape(ws, i, req);
    PlaceAddresses(base, ws, i, req);
    assert 0 < i ==> !IsFree(ws[i - 1]);
    if SplitFits(ws[i], req) {
      assert p[i + 2..] == ws[i + 1..];
      assert Release(p, i) == ws[..i] + [ws[i]] + ws[i + 1..];
    } else {
      assert i + 1 < |ws| ==> !IsFree(ws[i + 1]);
      assert Release(p, i) == ws[..i] + [ws[i]] + ws[i + 1..];
    }
    assert ws == ws[..i] + [ws[i]] + ws[i + 1..];
  }
}
