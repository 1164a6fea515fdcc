/** The block size of mymalloc (mymalloc/mymalloc.c:3 and 25) as the source
    computes it, in 64-bit size_t arithmetic, next to the unbounded
    RequestTotal of the model. */
module SizeOverflow {
  import opened BoundaryTags
  import opened MyMalloc

  /** 2^64: size_t arithmetic is modulo this. */
  const SIZE_T_MOD: nat := 0x1_0000_0000_0000_0000
  /** SIZE_MAX, the largest size_t. */
  const SIZE_MAX: nat := SIZE_T_MOD - 1

  /** x + y in size_t. */
  function AddSizeT(x: nat, y: nat): (r: nat)
    requires x < SIZE_T_MOD && y < SIZE_T_MOD
    ensures r < SIZE_T_MOD && (r == x + y || r == x + y - SIZE_T_MOD)
  {
    (x + y) % SIZE_T_MOD
  }

  /** `ALIGN8(size) + 2 * sizeof(size_t)` as written: both additions wrap,
      and `& ~7` clears the low three bits. */
  function RequestTotalAsWritten(size: nat): (total: nat)
    requires size < SIZE_T_MOD
    ensures total < SIZE_T_MOD && total % 8 == 0
  {
    var x := AddSizeT(size, 7);
    AddSizeT(x - x % 8, 2 * WORD)
  }

  /** The computation agrees with RequestTotal exactly for the requests up
      to SIZE_MAX - 23; for the 23 largest the sum wraps. */
  lemma AsWrittenAgrees(size: nat)
    requires size < SIZE_T_MOD
    ensures RequestTotalAsWritten(size) == RequestTotal(size) <==> size <= SIZE_MAX - 23
  {
    if size <= SIZE_MAX - 23 {
      assert AddSizeT(size, 7) == size + 7;
    } else {
      assert RequestTotal(size) >= SIZE_T_MOD;
    }
  }

  /** A wrapped total is at most 16 bytes: less than a minimal block, and
      far less than the `size + 16` bytes the request needs. */
  lemma AsWrittenWraps(size: nat)
    requires SIZE_MAX - 23 < size < SIZE_T_MOD
    ensures RequestTotalAsWritten(size) <= 2 * WORD < MIN_BLOCK
  {
    var x := AddSizeT(size, 7);
    if size + 7 < SIZE_T_MOD {
      assert x == size + 7 && x - x % 8 >= SIZE_T_MOD - 16;
    } else {
      assert x == size + 7 - SIZE_T_MOD && x - x % 8 == 0;
    }
  }

  /** mymalloc(SIZE_MAX): the computed total is 16 bytes. */
  lemma SizeMaxTotal()
    ensures RequestTotalAsWritten(SIZE_MAX) == 16
  {
    assert AddSizeT(SIZE_MAX, 7) == 6;
  }

  /** With that total, the head of any non-empty free list passes the
      first-fit test of mymalloc/mymalloc.c:36, so mymalloc(SIZE_MAX) hands
      out a block instead of returning NULL; with RequestTotal no node of an
      arena that size_t can address fits. */
  lemma SizeMaxFits(h: Heap)
    requires Valid(h) && |h.fl| > 0
    ensures Fits(h.m, h.fl[0], RequestTotalAsWritten(SIZE_MAX))
    ensures |h.m| <= SIZE_T_MOD / WORD ==> forall k :: 0 <= k < |h.fl| ==> !Fits(h.m, h.fl[k], RequestTotal(SIZE_MAX))
  {
    SizeMaxTotal();
    NodeFacts(h, 0);
    if |h.m| <= SIZE_T_MOD / WORD {
      forall k | 0 <= k < |h.fl|
        ensures !Fits(h.m, h.fl[k], RequestTotal(SIZE_MAX))
      {
        NodeFacts(h, k);
      }
    }
  }
}
