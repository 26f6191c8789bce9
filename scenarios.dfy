// Small worked chains: the best-fit choice and the coalescing of three
// neighbouring blocks, on concrete words.

module Scenarios {
  import opened Tags
  import opened Chain
  import opened Mem

  /** Free blocks of 48 and 40 bytes and a 32-byte request: the 40-byte block is taken. */
  lemma BestFitTakesSmallerBlock()
    ensures BestFitAt([48, Word(16, true), 40], 32, 2)
    ensures !BestFitAt([48, Word(16, true), 40], 32, 0)
  {
  }

  /** An exact fit later in the chain wins over a larger free block earlier in it. */
  lemma ExactFitWins()
    ensures BestFitAt([40, Word(16, true), 32], 32, 2)
    ensures !BestFitAt([40, Word(16, true), 32], 32, 0)
  {
  }

  /** With every block busy, no request fits. */
  lemma FullArenaHasNoFit(req: int)
    requires req > 0
    ensures NoFit([Word(16, true), Word(4, true)], req)
  {
  }

  /**
   * Three busy 16-byte blocks A, B, C: whatever the order of release (each
   * index is the block's position in the chain at that moment), the result is
   * one free block spanning all three, headers included.
   */
  lemma CoalesceInAnyOrder()
    ensures Release(Release(Release([17, 17, 17], 1), 0), 1) == [16 * 3 + 2 * H]  // B, A, C
    ensures Release(Release(Release([17, 17, 17], 1), 2), 0) == [16 * 3 + 2 * H]  // B, C, A
    ensures Release(Release(Release([17, 17, 17], 0), 1), 1) == [16 * 3 + 2 * H]  // A, B, C
    ensures Release(Release(Release([17, 17, 17], 0), 2), 1) == [16 * 3 + 2 * H]  // A, C, B
    ensures Release(Release(Release([17, 17, 17], 2), 1), 0) == [16 * 3 + 2 * H]  // C, B, A
    ensures Release(Release(Release([17, 17, 17], 2), 0), 1) == [16 * 3 + 2 * H]  // C, A, B
  {
  }

  /**
   * The chains a client sees on a 4096-byte arena: one free block, then a
   * 100-byte allocation that splits it, then the release that merges it back.
   */
  lemma ClientChains(base: int)
    ensures BestFitAt([4096 - H], 100, 0) && !NoFit([4096 - H], 100)
    ensures Place([4096 - H], 0, 100) == [Word(100, true), 4096 - H - 100 - H]
    ensures PayloadAddr(base, [4096 - H], 0) == base + H
    ensures PayloadAddr(base, [Word(100, true), 4096 - H - 100 - H], 0) == base + H
    ensures PayloadAddr(base, [Word(100, true), 4096 - H - 100 - H], 1) != base + H
    ensures Release([Word(100, true), 4096 - H - 100 - H], 0) == [4096 - H]
  {
    var placed := [Word(100, true), 4096 - H - 100 - H];
    assert [4096 - H][..0] == [] && placed[..0] == [];
    assert placed[..1] == [placed[0]];
    ReleaseUndoesPlace(base, [4096 - H], 0, 100);
  }

  /**
   * A client of the allocator: a fresh 4096-byte arena, a second
   * initialisation that is refused, a 100-byte request, and two releases of
   * the pointer: the first leaves the arena as one free block again, the
   * second is refused.
   */
  method AllocatorClient()
  {
    var a := new Allocator();
    var r := a.Init(4000, 4096, true, 0x10000);
    assert r == 0 && a.words == [4096 - H];
    var again := a.Init(4000, 4096, true, 0x20000);
    assert again == -1 && a.base == 0x10000 && a.words == [4096 - H];
    ClientChains(a.base);
    var p := a.Alloc(100);
    assert p == a.base + H;
    assert a.words == [Word(100, true), 4096 - H - 100 - H];
    var q := a.Free(p);
    assert q == 0;
    assert a.words == [4096 - H];
    var twice := a.Free(p);
    assert twice == -1;
  }
}
