// The allocator: the one-shot initialisation guard, the head of the block
// chain, and the three public operations Mem_Init, Mem_Alloc and Mem_Free.
// Pointers are integer addresses and NULL is address 0.

module Mem {
  import opened Tags
  import opened Chain

  const Null: int := 0

  /** Mem_Alloc's rounding of a positive request up to a multiple of 4. */
  function RoundUp4(size: int): (r: int)
    requires size > 0
    ensures r % 4 == 0 && size <= r < size + 4
  {
    if size % 4 != 0 then size + (4 - size % 4) % 4 else size
  }

  /** Mem_Init's rounding of the region size up to a whole number of pages. */
  function RoundToPages(sizeOfRegion: int, pageSize: int): (r: int)
    requires sizeOfRegion > 0 && pageSize > 0
    ensures r % pageSize == 0 && sizeOfRegion <= r < sizeOfRegion + pageSize
  {
    var padsize := sizeOfRegion % pageSize;
    PageRounding(sizeOfRegion, pageSize);
    sizeOfRegion + (pageSize - padsize) % pageSize
  }

  // ---------------------------------------------------------------------------
  // Arithmetic with a divisor that is not a literal

  lemma {:induction false} MulBounds(p: int, t: int)
    requires p > 0
    ensures t >= 1 ==> p * t >= p
    ensures t <= -1 ==> p * t <= -p
    decreases if t < 0 then -t else t
  {
    if t > 1 {
      MulBounds(p, t - 1);
      assert p * t == p * (t - 1) + p;
    } else if t < -1 {
      MulBounds(p, t + 1);
      assert p * t == p * (t + 1) - p;
    }
  }

  lemma ModOfMultiple(p: int, k: int, x: int)
    requires p > 0 && x == p * k
    ensures x % p == 0
  {
    var d, r := x / p, x % p;
    assert x == p * d + r;
    assert p * (k - d) == r;
    MulBounds(p, k - d);
  }

  lemma ModSmall(p: int, x: int)
    requires p > 0 && 0 <= x < p
    ensures x % p == x
  {
    var d, r := x / p, x % p;
    assert x == p * d + r;
    assert p * d == x - r;
    MulBounds(p, d);
  }

  /** Mem_Init's padding gives the least multiple of the page size not below the request. */
  lemma PageRounding(s: int, p: int)
    requires s > 0 && p > 0
    ensures (s + (p - s % p) % p) % p == 0
    ensures s <= s + (p - s % p) % p < s + p
  {
    var m, q := s % p, s / p;
    assert s == p * q + m;
    if m == 0 {
      ModOfMultiple(p, 1, p - m);
      ModOfMultiple(p, q, s);
    } else {
      ModSmall(p, p - m);
      ModOfMultiple(p, q + 1, s + (p - m));
    }
  }

  /** A multiple of a multiple of 4 is a multiple of 4. */
  lemma MultipleOfMultiple(a: int, p: int)
    requires p > 0 && a % p == 0 && p % 4 == 0
    ensures a % 4 == 0
  {
    var q, m := a / p, p / 4;
    assert a == p * q;
    assert p == 4 * m;
    assert a == 4 * (m * q);
    ModOfMultiple(4, m * q, a);
  }

  /** No free block is large enough for the request. */
  ghost predicate NoFit(ws: seq<int>, req: int) {
    forall k :: 0 <= k < |ws| && IsFree(ws[k]) ==> ws[k] < req
  }

  /** When every block is busy, no request fits: allocation returns NULL. */
  lemma AllBusyNoFit(ws: seq<int>, req: int)
    requires forall k :: 0 <= k < |ws| ==> !IsFree(ws[k])
    ensures NoFit(ws, req)
  {
  }

  /**
   * Block i is the best fit for the request: the first block whose word equals
   * the request if there is one; otherwise a free block of the least size
   * greater than the request, the earliest of those.
   */
  ghost predicate BestFitAt(ws: seq<int>, req: int, i: nat) {
    && i < |ws| && IsFree(ws[i]) && ws[i] >= req
    && (forall k :: 0 <= k < i ==> ws[k] != req)
    && (ws[i] != req ==>
          && (forall k :: i < k < |ws| ==> ws[k] != req)
          && (forall k :: 0 <= k < |ws| && IsFree(ws[k]) && ws[k] > req ==> ws[i] <= ws[k])
          && (forall k :: 0 <= k < i && IsFree(ws[k]) ==> ws[k] != ws[i]))
  }

  /** The best-fit rule picks at most one block. */
  lemma BestFitUnique(ws: seq<int>, req: int, i: nat, j: nat)
    requires BestFitAt(ws, req, i) && BestFitAt(ws, req, j)
    ensures i == j
  {
  }

  /**
   * The best-fit scan of Mem_Alloc: walk the chain in address order; a block
   * whose word equals the request is taken at once; otherwise remember the
   * first free block that is larger than the request and replace it only by a
   * strictly smaller one.
   */
  method ScanBestFit(ws: seq<int>, req: int) returns (choice: Option<nat>)
    requires WordsOk(ws) && req > 0 && req % 4 == 0
    ensures choice.None? <==> NoFit(ws, req)
    ensures choice.Some? ==> BestFitAt(ws, req, choice.value)
  {
    var j := 0;
    var keep: Option<nat> := None;
    while j < |ws|
      invariant 0 <= j <= |ws|
      invariant forall k :: 0 <= k < j ==> ws[k] != req
      invariant keep.None? ==> forall k :: 0 <= k < j && IsFree(ws[k]) ==> ws[k] < req
      invariant keep.Some? ==>
        && keep.value < j && IsFree(ws[keep.value]) && ws[keep.value] > req
        && (forall k :: 0 <= k < j && IsFree(ws[k]) && ws[k] > req ==> ws[keep.value] <= ws[k])
        && (forall k :: 0 <= k < keep.value && IsFree(ws[k]) ==> ws[k] != ws[keep.value])
    {
      if ws[j] == req {
        ExactMatchIsFree(ws[j], req);
        return Some(j);
      } else if IsFree(ws[j]) {
        if ws[j] > req {
          if keep.None? {
            keep := Some(j);
          } else if ws[j] < ws[keep.value] {
            keep := Some(j);
          }
        }
      }
      j := j + 1;
    }
    choice := keep;
  }

  /**
   * The lookup of Mem_Free: walk the chain in address order, carrying the
   * address of the current block, until a block's payload address equals ptr.
   */
  method FindPayload(ws: seq<int>, base: int, ptr: int) returns (found: Option<nat>)
    requires WordsOk(ws)
    ensures found.None? <==> forall k :: 0 <= k < |ws| ==> PayloadAddr(base, ws, k) != ptr
    ensures found.Some? ==> found.value < |ws| && PayloadAddr(base, ws, found.value) == ptr
    ensures found.Some? ==> forall k :: 0 <= k < |ws| && k != found.value ==> PayloadAddr(base, ws, k) != ptr
  {
    var j := 0;
    var curr := base;
    while j < |ws|
      invariant 0 <= j <= |ws|
      invariant curr == Addr(base, ws, j)
      invariant forall k :: 0 <= k < j ==> PayloadAddr(base, ws, k) != ptr
    {
      if curr + H == ptr {
        forall k | 0 <= k < |ws| && k != j
          ensures PayloadAddr(base, ws, k) != ptr
        {
          PayloadInjective(base, ws, k, j);
        }
        assert PayloadAddr(base, ws, j) == ptr;
        return Some(j);
      }
      AddrNext(base, ws, j);
      curr := curr + Span(ws[j]);
      j := j + 1;
    }
    found := None;
  }

  /** Every payload address lies at least a header past the arena base. */
  lemma PayloadAboveBase(base: int, ws: seq<int>, i: nat)
    requires WordsOk(ws) && i < |ws|
    ensures PayloadAddr(base, ws, i) >= base + H
  {
    assert WordsOk(ws[..i]) by {
      assert forall k :: 0 <= k < i ==> ws[..i][k] == ws[k];
    }
    TotalAtLeastHeaders(ws[..i]);
  }

  class Allocator {
    /** allocated_once: Mem_Init has succeeded. */
    var initialized: bool
    /** Address of the first block (list_head) once initialised. */
    var base: int
    /** Length in bytes of the arena. */
    var arenaSize: int
    /** The size_status word of every block, in link (and address) order. */
    var words: seq<int>

    /**
     * The chain's invariant: well-formed words with no two adjacent free
     * blocks, tiling exactly the arena; there are blocks iff Mem_Init succeeded.
     */
    ghost predicate Valid()
      reads this
    {
      && WellFormed(words)
      && Total(words) == arenaSize
      && base >= 0
      && (initialized <==> words != [])
    }

    /** The state before Mem_Init: list_head is NULL and the guard is clear. */
    constructor ()
      ensures Valid() && !initialized && words == []
    {
      initialized := false;
      base := 0;
      arenaSize := 0;
      words := [];
    }

    /**
     * Mem_Init. The page size, whether the zero device could be opened and
     * mapped, and the address the mapping landed at come from the operating
     * system and are parameters here.
     */
    method Init(sizeOfRegion: int, pageSize: int, mapped: bool, region: int) returns (r: int)
      requires Valid()
      requires pageSize >= H && pageSize % 4 == 0 && region >= 0
      modifies this
      ensures Valid()
      ensures r == 0 || r == -1
      ensures r == 0 <==> !old(initialized) && sizeOfRegion > 0 && mapped
      ensures r == -1 ==>
        initialized == old(initialized) && base == old(base)
        && arenaSize == old(arenaSize) && words == old(words)
      ensures r == 0 ==>
        && initialized && base == region
        && arenaSize == RoundToPages(sizeOfRegion, pageSize)
        && words == [arenaSize - H] && IsFree(words[0])
    {
      if initialized {
        return -1;
      }
      if sizeOfRegion <= 0 {
        return -1;
      }
      var allocSize := RoundToPages(sizeOfRegion, pageSize);
      if !mapped {
        initialized := false;
        return -1;
      }
      MultipleOfMultiple(allocSize, pageSize);
      initialized := true;
      base := region;
      arenaSize := allocSize;
      words := [Word(allocSize - H, false)];
      r := 0;
    }

    /** setAlloc applied to the header of block i. */
    method SetAlloc(i: nat)
      requires i < |words|
      modifies this`words
      ensures words == old(words)[i := MarkBusy(old(words)[i])]
    {
      words := words[i := MarkBusy(words[i])];
    }

    /** setFree applied to the header of block i. */
    method SetFree(i: nat)
      requires i < |words|
      modifies this`words
      ensures words == old(words)[i := MarkFree(old(words)[i])]
    {
      words := words[i := MarkFree(words[i])];
    }

    /**
     * Mem_Alloc: NULL for a non-positive request or when no free block is
     * large enough; otherwise the payload address of the best-fit block, which
     * is split or absorbs the leftover as Place describes.
     */
    method Alloc(size: int) returns (p: int)
      requires Valid()
      modifies this`words
      ensures Valid()
      ensures p == Null <==> size <= 0 || NoFit(old(words), RoundUp4(size))
      ensures p == Null ==> words == old(words)
      ensures p != Null ==>
        exists i :: BestFitAt(old(words), RoundUp4(size), i)
          && p == PayloadAddr(base, old(words), i)
          && words == Place(old(words), i, RoundUp4(size))
    {
      if size <= 0 {
        return Null;
      }
      var req := RoundUp4(size);
      var choice := ScanBestFit(words, req);
      if choice.None? {
        return Null;
      }
      var i := choice.value;
      ghost var ws := words;
      p := PayloadAddr(base, words, i);
      PayloadAboveBase(base, words, i);
      var freeSpace := words[i] - req;
      var padSize := 0;
      if freeSpace >= 4 + H {
        words := words[..i + 1] + [freeSpace - H] + words[i + 1..];
      } else {
        padSize := freeSpace;
      }
      words := words[i := req + padSize];
      SetAlloc(i);
      assert words == Place(ws, i, req);
      PlaceKeepsWellFormed(ws, i, req);
      PlaceKeepsTotal(ws, i, req);
    }

    /**
     * Mem_Free: -1 for NULL, for an address that is no block's payload, and
     * for a block that is already free; otherwise the block is released and
     * merged with free neighbours as Release describes, and the result is 0.
     */
    method Free(ptr: int) returns (r: int)
      requires Valid()
      modifies this`words
      ensures Valid()
      ensures r == 0 || r == -1
      ensures ptr == Null ==> r == -1
      ensures r == 0 <==> exists i :: 0 <= i < |old(words)| && PayloadAddr(base, old(words), i) == ptr
                                      && !IsFree(old(words)[i])
      ensures r == -1 ==> words == old(words)
      ensures r == 0 ==> exists i :: 0 <= i < |old(words)| && PayloadAddr(base, old(words), i) == ptr
                                     && words == Release(old(words), i)
    {
      if ptr == Null {
        forall i | 0 <= i < |words|
          ensures PayloadAddr(base, words, i) != ptr
        {
          PayloadAboveBase(base, words, i);
        }
        return -1;
      }
      var found := FindPayload(words, base, ptr);
      if found.None? {
        return -1;
      }
      var i := found.value;
      if IsFree(words[i]) {
        return -1;
      }
      ghost var ws := words;
      SetFree(i);
      assert words[..i] == ws[..i] && words[i + 1..] == ws[i + 1..];
      if 0 < i && IsFree(words[i - 1]) {
        assert words[..i - 1] == ws[..i - 1];
        if i + 1 < |words| && IsFree(words[i + 1]) {
          assert words[i + 2..] == ws[i + 2..];
          words := words[..i - 1] + [words[i - 1] + H + words[i] + H + words[i + 1]] + words[i + 2..];
        } else {
          words := words[..i - 1] + [words[i - 1] + H + words[i]] + words[i + 1..];
        }
      } else if i + 1 < |words| && IsFree(words[i + 1]) {
        assert words[i + 2..] == ws[i + 2..];
        words := words[..i] + [words[i] + H + words[i + 1]] + words[i + 2..];
      } else {
        assert words == ws[..i] + [MarkFree(ws[i])] + ws[i + 1..];
      }
      assert words == Release(ws, i);
      ReleaseShape(ws, i);
      ReleaseKeepsWellFormed(ws, i);
      ReleaseKeepsTotal(ws, i);
      r := 0;
    }
  }
}
