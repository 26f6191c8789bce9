// Two places where mem.c, as written, departs from what it evidently intends.
// Each is stated here as written, with the input that shows it; the rest of
// the model uses the intended behaviour (Chain.PayloadAddr, Chain.RightFree).

module Findings {
  import opened Tags
  import opened Chain

  /**
   * The payload pointer as mem.c computes it: `block + sizeof(block_header)`
   * on a `block_header*` advances by sizeof(block_header) whole headers, that
   * is H * H bytes, not H.
   */
  function PayloadAddrAsWritten(base: int, ws: seq<int>, i: nat): (p: int)
    requires i < |ws|
    ensures p == PayloadAddr(base, ws, i) + H * (H - 1)
  {
    Addr(base, ws, i) + H * H
  }

  /**
   * As written, the pointer handed out for a block whose payload is shorter
   * than H * H - H bytes lies at or past the end of that block, so the
   * caller's bytes belong to the block after it.
   */
  lemma AsWrittenPayloadLeavesBlock(base: int, ws: seq<int>, i: nat)
    requires WordsOk(ws) && i < |ws| && Size(ws[i]) < H * H - H
    ensures Addr(base, ws, i + 1) <= PayloadAddrAsWritten(base, ws, i)
  {
    AddrNext(base, ws, i);
  }

  /**
   * The input that shows it: a 4096-byte arena, then a 4-byte request. The
   * first block is split to 4 bytes; as written its pointer is 64 bytes past
   * its header, inside the free block that follows it, while the intended
   * pointer is just past the header, with the 4 bytes ending where the next
   * block begins.
   */
  lemma AsWrittenPayloadExample(base: int)
    ensures Place([4096 - H], 0, 4) == [Word(4, true), 4096 - H - 4 - H]
    ensures PayloadAddrAsWritten(base, [Word(4, true), 4096 - H - 4 - H], 0) == base + 64
    ensures Addr(base, [Word(4, true), 4096 - H - 4 - H], 1) == base + 12
    ensures PayloadAddr(base, [Word(4, true), 4096 - H - 4 - H], 0) + 4 == base + 12
  {
    var ws := [Word(4, true), 4096 - H - 4 - H];
    assert ws[..0] == [];
    assert ws[..1] == [ws[0]];
    assert [ws[0]][1..] == [];
  }

  /**
   * `isFree(curr->next)` as Mem_Free evaluates it (mem.c:228, mem.c:264,
   * mem.c:273): the successor's free bit, or None when curr is the last block
   * and `next` is NULL, where the call reads through a null pointer.
   */
  function SuccessorFreeAsWritten(ws: seq<int>, i: nat): (r: Option<bool>)
    requires i < |ws|
    ensures r.None? <==> i == |ws| - 1
    ensures r.Some? ==> (r.value <==> RightFree(ws, i))
  {
    if i + 1 < |ws| then Some(IsFree(ws[i + 1])) else None
  }

  /**
   * The input that shows it: a 4096-byte arena, a 4088-byte request (an exact
   * fit for the one block), then a free of the pointer returned. The freed
   * block is the last one, so the successor test reads through NULL; the
   * intended test, RightFree, answers "no free successor".
   */
  lemma FreeOfLastBlockReadsNull()
    ensures Place([4096 - H], 0, 4096 - H) == [Word(4096 - H, true)]
    ensures SuccessorFreeAsWritten([Word(4096 - H, true)], 0).None?
    ensures !RightFree([Word(4096 - H, true)], 0)
    ensures Release([Word(4096 - H, true)], 0) == [4096 - H]
  {
  }
}
