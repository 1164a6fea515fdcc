/** mymalloc and myfree of mymalloc/mymalloc.c, as steps on an allocator
    state (the functions MallocStep and FreeStep, with the properties proved
    about them), and as methods of a class that performs the same stores on an
    array of words in the order the source performs them. */
module MyMalloc {
  import opened BoundaryTags

  /** The allocator state: the heap words, free_list_head, and the blocks and
      free list these words represent. */
  datatype Heap = Heap(m: seq<int>, head: int, bs: seq<Block>, fl: seq<nat>)

  /** What mymalloc leaves behind: the new state and the returned pointer,
      the word offset of the payload (NULL when nothing is handed out). */
  datatype Outcome = Outcome(heap: Heap, ptr: nat)

  ghost predicate Valid(h: Heap) {
    ValidHeap(h.m, h.head, h.bs, h.fl)
  }

  /** The test `curr_sz >= total` of the first-fit scan, for the node at x. */
  predicate Fits(m: seq<int>, x: nat, total: int) {
    x < |m| && MarkFree(m[x]) >= total
  }

  /** The position of the first node at or after position k of the free list
      that fits `total`, or |fl| when none does. */
  function FirstFit(m: seq<int>, fl: seq<nat>, total: int, k: nat): (r: nat)
    requires k <= |fl|
    ensures k <= r <= |fl|
    ensures r < |fl| ==> Fits(m, fl[r], total)
    ensures forall i :: k <= i < r ==> !Fits(m, fl[i], total)
    decreases |fl| - k
  {
    if k == |fl| then k
    else if Fits(m, fl[k], total) then k
    else FirstFit(m, fl, total, k + 1)
  }

  /** The position of the first node at or after position k that is x, or
      |fl|: the search loop of myfree (mymalloc/mymalloc.c:109-114). */
  function IndexFrom(fl: seq<nat>, x: nat, k: nat): (r: nat)
    requires k <= |fl|
    ensures k <= r <= |fl|
    ensures r < |fl| ==> fl[r] == x
    ensures forall i :: k <= i < r ==> fl[i] != x
    decreases |fl| - k
  {
    if k == |fl| then k
    else if fl[k] == x then k
    else IndexFrom(fl, x, k + 1)
  }

  /** What a valid state says about free-list node k: its block, its size
      word, its link word and the link word of its predecessor. */
  lemma NodeFacts(h: Heap, k: nat)
    requires Valid(h) && k < |h.fl|
    ensures var j := BlockIndex(h.bs, h.fl[k], 0);
      && j < |h.bs| && h.bs[j].start == h.fl[k] && !h.bs[j].inUse
      && 0 < h.fl[k] && End(h.bs[j]) < |h.m| && 3 <= h.bs[j].words
      && MarkFree(h.m[h.fl[k]]) == 8 * h.bs[j].words
      && h.m[h.fl[k] + 1] == Succ(h.fl, k)
      && (k > 0 ==> h.fl[k - 1] + 1 < |h.m| && h.m[h.fl[k - 1] + 1] == h.fl[k])
  {
    var g := LinkWordInside(h.m, h.head, h.bs, h.fl, k);
    BlockIndexFound(h.bs, 1, |h.m| - 1, g);
    assert TagsAt(h.m, h.bs[g]);
    TagFields(h.bs[g]);
    LinkAt(h.m, h.fl, k);
    if k > 0 {
      LinkAt(h.m, h.fl, k - 1);
    }
  }

  /** What a valid state says about the block in use that starts at b. */
  lemma UsedFacts(h: Heap, b: nat)
    requires Valid(h) && b in UsedStarts(h.bs)
    ensures var i := BlockIndex(h.bs, b, 0);
      && i < |h.bs| && h.bs[i].start == b && h.bs[i].inUse
      && 0 < b && End(h.bs[i]) < |h.m| && 3 <= h.bs[i].words
      && MarkFree(MarkAlloc(h.m[b])) == 8 * h.bs[i].words
  {
    var g := UsedBlockOf(h.bs, 1, |h.m| - 1, b);
    BlockIndexFound(h.bs, 1, |h.m| - 1, g);
    assert TagsAt(h.m, h.bs[g]);
    TagFields(h.bs[g]);
  }

  /** No free-list node is the null address, so the scans stop exactly at
      the end of the list. */
  lemma NodesNonNull(h: Heap)
    requires Valid(h)
    ensures forall k :: 0 <= k < |h.fl| ==> h.fl[k] != NULL
  {
    forall k | 0 <= k < |h.fl|
      ensures h.fl[k] != NULL
    {
      var g := LinkWordInside(h.m, h.head, h.bs, h.fl, k);
    }
  }

  /** The word a live pointer points at, just past its block's header, is a
      payload word of that block. */
  lemma FirstPayloadWord(h: Heap, b: nat)
    requires Valid(h) && b in UsedStarts(h.bs)
    ensures exists i :: 0 <= i < |h.bs| && h.bs[i].start == b && InPayload(h.bs, i, b + 1)
  {
    UsedFacts(h, b);
    assert InPayload(h.bs, BlockIndex(h.bs, b, 0), b + 1);
  }

  // ---------------------------------------------------------------------
  // mymalloc

  /** mymalloc(size), mymalloc/mymalloc.c:17-89: a request of 0 bytes gets
      NULL; otherwise the first free-list node of at least `total` bytes is
      handed out, split when the rest is at least MIN_BLOCK bytes, and the
      result is the word after its header; NULL when no node fits. */
  ghost function MallocStep(h: Heap, size: nat): (r: Outcome)
    requires Valid(h)
  {
    if size == 0 then Outcome(h, NULL)
    else
      var total := RequestTotal(size);
      var k := FirstFit(h.m, h.fl, total, 0);
      if k == |h.fl| then Outcome(h, NULL)
      else
        NodeFacts(h, k);
        var s, j := h.fl[k], BlockIndex(h.bs, h.fl[k], 0);
        var w := h.bs[j].words;
        if 8 * w - total >= MIN_BLOCK then
          var n := total / WORD;
          Outcome(Heap(Relink(SplitWrites(h.m, s, w, n), h.fl, k, s + n), RelinkHead(h.head, k, s + n),
                       SplitBlocks(h.bs, j, n), h.fl[k := s + n]), s + 1)
        else
          Outcome(Heap(Relink(AllocWrites(h.m, s, w), h.fl, k, Succ(h.fl, k)), RelinkHead(h.head, k, Succ(h.fl, k)),
                       SetInUse(h.bs, j, true), RemoveAt(h.fl, k)), s + 1)
  }

  /** The split case of mymalloc, with node k's predecessor `prev` (null
      for the head) as the scan holds it: the words are the split stores
      followed by the link from prev, and the head moves when prev is null. */
  lemma MallocSplitOutcome(h: Heap, size: nat, k: nat) returns (j: nat, n: nat, w: nat, prev: nat)
    requires Valid(h) && size > 0 && k < |h.fl| && k == FirstFit(h.m, h.fl, RequestTotal(size), 0)
    requires MarkFree(h.m[h.fl[k]]) - RequestTotal(size) >= MIN_BLOCK
    ensures j == BlockIndex(h.bs, h.fl[k], 0) && j < |h.bs| && w == h.bs[j].words
    ensures n == RequestTotal(size) / WORD && prev == if k == 0 then NULL else h.fl[k - 1]
    ensures RequestTotal(size) == 8 * n && MarkFree(h.m[h.fl[k]]) == 8 * w && 3 <= n && n + 3 <= w && h.fl[k] + w < |h.m|
    ensures (prev != NULL ==> prev + 1 < |h.m|) && (prev == NULL <==> k == 0)
    ensures MallocStep(h, size) ==
      Outcome(Heap(LinkFrom(SplitWrites(h.m, h.fl[k], w, n), prev, h.fl[k] + n), RelinkHead(h.head, k, h.fl[k] + n),
                   SplitBlocks(h.bs, j, n), h.fl[k := h.fl[k] + n]), h.fl[k] + 1)
  {
    NodeFacts(h, k);
    NodesNonNull(h);
    var s, total := h.fl[k], RequestTotal(size);
    j := BlockIndex(h.bs, s, 0);
    n, w := total / WORD, h.bs[j].words;
    prev := if k == 0 then NULL else h.fl[k - 1];
    RequestWords(size);
    assert total == 8 * n && MarkFree(h.m[s]) == 8 * w;
    assert 3 <= n && n + 3 <= w;
  }

  /** The no-split case of mymalloc, with node k's predecessor `prev` as the
      scan holds it: the words are the two tag stores followed by the link
      from prev to the node's successor, which is also the new head when prev
      is null. */
  lemma MallocWholeOutcome(h: Heap, size: nat, k: nat) returns (j: nat, w: nat, prev: nat)
    requires Valid(h) && size > 0 && k < |h.fl| && k == FirstFit(h.m, h.fl, RequestTotal(size), 0)
    requires MarkFree(h.m[h.fl[k]]) - RequestTotal(size) < MIN_BLOCK
    ensures j == BlockIndex(h.bs, h.fl[k], 0) && j < |h.bs| && w == h.bs[j].words
    ensures prev == if k == 0 then NULL else h.fl[k - 1]
    ensures MarkFree(h.m[h.fl[k]]) == 8 * w && 3 <= w && h.fl[k] + w < |h.m| && h.m[h.fl[k] + 1] == Succ(h.fl, k)
    ensures (prev != NULL ==> prev + 1 < |h.m|) && (prev == NULL <==> k == 0)
    ensures MallocStep(h, size) ==
      Outcome(Heap(LinkFrom(AllocWrites(h.m, h.fl[k], w), prev, h.m[h.fl[k] + 1]), RelinkHead(h.head, k, h.m[h.fl[k] + 1]),
                   SetInUse(h.bs, j, true), RemoveAt(h.fl, k)), h.fl[k] + 1)
  {
    NodeFacts(h, k);
    NodesNonNull(h);
    j := BlockIndex(h.bs, h.fl[k], 0);
    w := h.bs[j].words;
    prev := if k == 0 then NULL else h.fl[k - 1];
  }

  /** mymalloc keeps the heap valid: header and footer of every block agree,
      the free list holds exactly the blocks whose flag is clear, and the
      blocks tile the arena. */
  lemma MallocStepValid(h: Heap, size: nat)
    requires Valid(h)
    ensures Valid(MallocStep(h, size).heap)
  {
    if size > 0 {
      var total := RequestTotal(size);
      var k := FirstFit(h.m, h.fl, total, 0);
      if k < |h.fl| {
        NodeFacts(h, k);
        var j := BlockIndex(h.bs, h.fl[k], 0);
        if 8 * h.bs[j].words - total >= MIN_BLOCK {
          SplitStepValid(h, size, k, j);
        } else {
          WholeStepValid(h, size, k, j);
        }
      }
    }
  }

  /** The split case of MallocStepValid. */
  lemma SplitStepValid(h: Heap, size: nat, k: nat, j: nat)
    requires Valid(h) && size > 0 && k < |h.fl| && k == FirstFit(h.m, h.fl, RequestTotal(size), 0)
    requires j == BlockIndex(h.bs, h.fl[k], 0) && j < |h.bs| && h.bs[j].start == h.fl[k] && !h.bs[j].inUse
    requires 8 * h.bs[j].words - RequestTotal(size) >= MIN_BLOCK
    ensures Valid(MallocStep(h, size).heap)
  {
    RequestWords(size);
    var s, w, n := h.fl[k], h.bs[j].words, RequestTotal(size) / WORD;
    MallocSplitValid(h.m, h.head, h.bs, h.fl, k, j, n);
    var r := Heap(Relink(SplitWrites(h.m, s, w, n), h.fl, k, s + n), RelinkHead(h.head, k, s + n),
                  SplitBlocks(h.bs, j, n), h.fl[k := s + n]);
    assert MallocStep(h, size).heap == r;
  }

  /** The no-split case of MallocStepValid. */
  lemma WholeStepValid(h: Heap, size: nat, k: nat, j: nat)
    requires Valid(h) && size > 0 && k < |h.fl| && k == FirstFit(h.m, h.fl, RequestTotal(size), 0)
    requires j == BlockIndex(h.bs, h.fl[k], 0) && j < |h.bs| && h.bs[j].start == h.fl[k] && !h.bs[j].inUse
    requires 8 * h.bs[j].words - RequestTotal(size) < MIN_BLOCK
    ensures Valid(MallocStep(h, size).heap)
  {
    var s, w := h.fl[k], h.bs[j].words;
    MallocWholeValid(h.m, h.head, h.bs, h.fl, k, j);
    var r := Heap(Relink(AllocWrites(h.m, s, w), h.fl, k, Succ(h.fl, k)), RelinkHead(h.head, k, Succ(h.fl, k)),
                  SetInUse(h.bs, j, true), RemoveAt(h.fl, k));
    assert MallocStep(h, size).heap == r;
  }

  /** mymalloc returns NULL exactly for a request of 0 bytes and for one that
      no free-list node fits, and then changes nothing; otherwise it returns
      the word after the header of the first node that fits. */
  lemma MallocStepFirstFit(h: Heap, size: nat)
    requires Valid(h)
    ensures var r, total := MallocStep(h, size), RequestTotal(size);
      && (r.ptr == NULL <==> size == 0 || forall k :: 0 <= k < |h.fl| ==> !Fits(h.m, h.fl[k], total))
      && (r.ptr == NULL ==> r.heap == h)
      && (r.ptr != NULL ==>
           exists k :: 0 <= k < |h.fl| && r.ptr == h.fl[k] + 1 && Fits(h.m, h.fl[k], total)
             && forall i :: 0 <= i < k ==> !Fits(h.m, h.fl[i], total))
  {
    if size > 0 {
      var total := RequestTotal(size);
      var k := FirstFit(h.m, h.fl, total, 0);
      if k < |h.fl| {
        NodeFacts(h, k);
        assert MallocStep(h, size).ptr == h.fl[k] + 1;
      }
    }
  }

  /** mymalloc's split case, when the chosen node has a rest of at least
      MIN_BLOCK bytes: both tags of the chosen block become MARK_ALLOC(total),
      both tags of the rest at `chosen + total` become `curr_sz - total`, and
      the rest takes the chosen node's place in the free list. */
  lemma MallocStepSplit(h: Heap, size: nat, k: nat)
    requires Valid(h) && size > 0 && k < |h.fl| && k == FirstFit(h.m, h.fl, RequestTotal(size), 0)
    requires MarkFree(h.m[h.fl[k]]) - RequestTotal(size) >= MIN_BLOCK
    ensures var r, s, total, cs := MallocStep(h, size), h.fl[k], RequestTotal(size), MarkFree(h.m[h.fl[k]]);
      && r.ptr == s + 1 && cs % WORD == 0
      && |r.heap.m| == |h.m| && s + cs / WORD <= |h.m|
      && r.heap.m[s] == MarkAlloc(total) && r.heap.m[s + total / WORD - 1] == MarkAlloc(total)
      && r.heap.m[s + total / WORD] == cs - total && r.heap.m[s + cs / WORD - 1] == cs - total
      && r.heap.fl == h.fl[k := s + total / WORD]
  {
    var j, n, w, prev := MallocSplitOutcome(h, size, k);
    PrevApart(h, k);
    SplitLinkAt(h.m, h.fl[k], w, n, prev, RequestTotal(size), MarkFree(h.m[h.fl[k]]));
  }

  /** The link word of the node before node k lies outside node k's block. */
  lemma PrevApart(h: Heap, k: nat)
    requires Valid(h) && k < |h.fl|
    ensures var j := BlockIndex(h.bs, h.fl[k], 0);
      && j < |h.bs| && h.bs[j].start == h.fl[k]
      && (k > 0 ==> h.fl[k - 1] + 1 < |h.m| && (h.fl[k - 1] + 1 < h.fl[k] || End(h.bs[j]) <= h.fl[k - 1]))
  {
    NodeFacts(h, k);
    if k > 0 {
      LinksOutsideExcept(h.m, h.head, h.bs, h.fl, BlockIndex(h.bs, h.fl[k], 0), k);
    }
  }

  /** The split stores followed by the link from a node outside the block
      leave both pairs of tags as the split wrote them. */
  lemma SplitLinkAt(m: seq<int>, s: nat, w: nat, n: nat, prev: nat, total: int, cs: int)
    requires 3 <= n && n + 3 <= w && s + w <= |m| && total == 8 * n && cs == 8 * w
    requires prev != NULL ==> prev + 1 < |m| && (prev + 1 < s || s + w <= prev)
    ensures var m2 := LinkFrom(SplitWrites(m, s, w, n), prev, s + n);
      && |m2| == |m| && cs % WORD == 0 && s + cs / WORD <= |m| && total / WORD == n
      && m2[s] == MarkAlloc(total) && m2[s + total / WORD - 1] == MarkAlloc(total)
      && m2[s + total / WORD] == cs - total && m2[s + cs / WORD - 1] == cs - total
  {
    SplitWritesAt(m, s, w, n);
    BytesWords(w);
    BytesWords(n);
  }

  /** mymalloc's no-split case, when the rest would be smaller than
      MIN_BLOCK bytes: both tags of the chosen block become MARK_ALLOC(curr_sz)
      and the node leaves the free list, the others keeping their order. */
  lemma MallocStepWhole(h: Heap, size: nat, k: nat)
    requires Valid(h) && size > 0 && k < |h.fl| && k == FirstFit(h.m, h.fl, RequestTotal(size), 0)
    requires MarkFree(h.m[h.fl[k]]) - RequestTotal(size) < MIN_BLOCK
    ensures var r, s, cs := MallocStep(h, size), h.fl[k], MarkFree(h.m[h.fl[k]]);
      && r.ptr == s + 1 && cs % WORD == 0
      && |r.heap.m| == |h.m| && s + cs / WORD <= |h.m|
      && r.heap.m[s] == MarkAlloc(cs) && r.heap.m[s + cs / WORD - 1] == MarkAlloc(cs)
      && r.heap.fl == RemoveAt(h.fl, k)
  {
    NodeFacts(h, k);
    var j := BlockIndex(h.bs, h.fl[k], 0);
    LinksOutsideExcept(h.m, h.head, h.bs, h.fl, j, k);
    BytesWords(h.bs[j].words);
  }

  /** What mymalloc hands out was a free block, is now in use, holds at least
      `size` bytes between its header and its footer, and is the only block
      that changes from free to in use. */
  lemma MallocStepBlock(h: Heap, size: nat)
    requires Valid(h)
    ensures var r := MallocStep(h, size);
      r.ptr != NULL ==>
        && r.ptr - 1 in FreeStarts(h.bs) && r.ptr - 1 !in UsedStarts(h.bs)
        && UsedStarts(r.heap.bs) == UsedStarts(h.bs) + {r.ptr - 1}
        && exists j :: 0 <= j < |r.heap.bs| && r.heap.bs[j].start == r.ptr - 1 && r.heap.bs[j].inUse
             && 8 * (r.heap.bs[j].words - 2) >= size
  {
    if size > 0 {
      var k := FirstFit(h.m, h.fl, RequestTotal(size), 0);
      if k < |h.fl| {
        ChosenBlock(h, size, k);
      }
    }
  }

  /** MallocStepBlock for node k, the first node that fits. */
  lemma ChosenBlock(h: Heap, size: nat, k: nat)
    requires Valid(h) && size > 0 && k < |h.fl| && k == FirstFit(h.m, h.fl, RequestTotal(size), 0)
    ensures var r, s := MallocStep(h, size), h.fl[k];
      && r.ptr == s + 1
      && s in FreeStarts(h.bs) && s !in UsedStarts(h.bs)
      && UsedStarts(r.heap.bs) == UsedStarts(h.bs) + {s}
      && exists j :: 0 <= j < |r.heap.bs| && r.heap.bs[j].start == s && r.heap.bs[j].inUse
           && 8 * (r.heap.bs[j].words - 2) >= size
  {
    NodeFacts(h, k);
    var total, s := RequestTotal(size), h.fl[k];
    var j := BlockIndex(h.bs, s, 0);
    assert s in Elems(h.fl);
    StartsApart(h.bs, 1, |h.m| - 1, s);
    RequestWords(size);
    if MarkFree(h.m[s]) - total >= MIN_BLOCK {
      var _, n, _, _ := MallocSplitOutcome(h, size, k);
      UsedStartsSplit(h.bs, j, n);
      SplitIndex(h.bs, j, n);
      var bs' := SplitBlocks(h.bs, j, n);
      assert MallocStep(h, size).heap.bs == bs';
      assert bs'[j].start == s && bs'[j].inUse && 8 * (bs'[j].words - 2) >= size;
    } else {
      var _, _, _ := MallocWholeOutcome(h, size, k);
      UsedStartsSetInUse(h.bs, 1, |h.m| - 1, j, true);
      var bs' := SetInUse(h.bs, j, true);
      assert MallocStep(h, size).heap.bs == bs';
      assert bs'[j].start == s && bs'[j].inUse && 8 * (bs'[j].words - 2) >= size;
    }
  }

  /** mymalloc changes no word of a live payload. */
  lemma MallocKeepsPayloads(h: Heap, size: nat)
    requires Valid(h)
    ensures var r := MallocStep(h, size);
      |r.heap.m| == |h.m| &&
      forall i, x :: 0 <= i < |h.bs| && InPayload(h.bs, i, x) ==> 0 <= x < |h.m| && r.heap.m[x] == h.m[x]
  {
    var r := MallocStep(h, size);
    if size > 0 {
      var total := RequestTotal(size);
      var k := FirstFit(h.m, h.fl, total, 0);
      if k < |h.fl| {
        NodeFacts(h, k);
        var j := BlockIndex(h.bs, h.fl[k], 0);
        var pg := PredLinkInside(h.m, h.head, h.bs, h.fl, k, j);
        MallocFrame(h, size, k);
        PayloadsKept(h.bs, 1, |h.m| - 1, h.m, r.heap.m, j, j, if k > 0 then h.fl[k - 1] + 1 else -1, pg);
      }
    }
  }

  /** The words mymalloc writes lie in the chosen block, but for the link
      word of the node before it. */
  lemma MallocFrame(h: Heap, size: nat, k: nat)
    requires Valid(h) && size > 0 && k < |h.fl| && k == FirstFit(h.m, h.fl, RequestTotal(size), 0)
    ensures var r, j := MallocStep(h, size), BlockIndex(h.bs, h.fl[k], 0);
      && |r.heap.m| == |h.m| && j < |h.bs|
      && forall x :: 0 <= x < |h.m| && !(h.bs[j].start <= x < End(h.bs[j])) && x != (if k > 0 then h.fl[k - 1] + 1 else -1) ==>
           r.heap.m[x] == h.m[x]
  {
    NodeFacts(h, k);
    var s, j := h.fl[k], BlockIndex(h.bs, h.fl[k], 0);
    var w, total := h.bs[j].words, RequestTotal(size);
    if 8 * w - total >= MIN_BLOCK {
      RequestWords(size);
      SplitWritesAt(h.m, s, w, total / WORD);
    }
  }

  // ---------------------------------------------------------------------
  // myfree

  /** The state after myfree's first step on the live block at b: both tags
      lose the flag and the block is pushed at the head of the free list
      (mymalloc/mymalloc.c:97-104). */
  ghost function Release(h: Heap, b: nat): (r: Heap)
    requires Valid(h) && b in UsedStarts(h.bs)
  {
    UsedFacts(h, b);
    var i := BlockIndex(h.bs, b, 0);
    Heap(FreeWrites(h.m, b, h.bs[i].words)[b + 1 := h.head], b, SetInUse(h.bs, i, false), [b] + h.fl)
  }

  lemma ReleaseFacts(h: Heap, b: nat)
    requires Valid(h) && b in UsedStarts(h.bs)
    ensures var i, h1 := BlockIndex(h.bs, b, 0), Release(h, b);
      && i < |h.bs| && h.bs[i].start == b && h.bs[i].inUse && Valid(h1)
      && h1.bs == SetInUse(h.bs, i, false) && h1.fl == [b] + h.fl && h1.head == b
      && End(h.bs[i]) < |h1.m| == |h.m|
      && (!IsAllocated(h1.m[End(h.bs[i])]) ==>
           i + 1 < |h1.bs| && h1.bs[i + 1].start == End(h.bs[i]) && !h1.bs[i + 1].inUse)
  {
    UsedFacts(h, b);
    var i := BlockIndex(h.bs, b, 0);
    ReleaseValid(h.m, h.head, h.bs, h.fl, i);
    var h1 := Release(h, b);
    NextBlock(h1.m, h1.head, h1.bs, h1.fl, i);
  }

  /** The free block i + 1 right after the free block i that heads the free
      list sits at a position t > 0 of the list, found by the search loop. */
  lemma AbsorbFacts(h: Heap, i: nat)
    requires Valid(h) && i + 1 < |h.bs| && !h.bs[i].inUse && !h.bs[i + 1].inUse
    requires |h.fl| > 0 && h.fl[0] == h.bs[i].start
    ensures var nx, t := h.bs[i + 1].start, IndexFrom(h.fl, h.bs[i + 1].start, 0);
      && 0 < t < |h.fl| && h.fl[t] == nx && nx == End(h.bs[i])
      && End(h.bs[i + 1]) < |h.m| && h.fl[t - 1] + 1 < |h.m| && nx + 1 < |h.m|
      && h.fl[t - 1] + 1 != h.bs[i].start && h.fl[t - 1] + 1 != nx
      && MarkFree(h.m[h.bs[i].start]) == 8 * h.bs[i].words && MarkFree(h.m[nx]) == 8 * h.bs[i + 1].words
  {
    var nx := h.bs[i + 1].start;
    assert nx in FreeStarts(h.bs);
    assert nx in Elems(h.fl);
    var u :| 0 <= u < |h.fl| && h.fl[u] == nx;
    var t := IndexFrom(h.fl, nx, 0);
    assert t <= u;
    LinkAt(h.m, h.fl, t);
    LinkAt(h.m, h.fl, t - 1);
    var gq := LinkWordInside(h.m, h.head, h.bs, h.fl, t - 1);
    assert TagsAt(h.m, h.bs[i]) && TagsAt(h.m, h.bs[i + 1]);
    TagFields(h.bs[i]);
    TagFields(h.bs[i + 1]);
  }

  /** myfree's forward merge (mymalloc/mymalloc.c:106-124), with the freed
      block i at the head of the list and the free block i + 1 after it: the
      search loop finds block i + 1 at position t, its predecessor's link
      takes over its `next`, and both tags of block i get the sum of the two
      sizes. */
  ghost function Absorb(h: Heap, i: nat): (r: Heap)
    requires Valid(h) && i + 1 < |h.bs| && !h.bs[i].inUse && !h.bs[i + 1].inUse
    requires |h.fl| > 0 && h.fl[0] == h.bs[i].start
    ensures var b, w := h.bs[i].start, h.bs[i].words + h.bs[i + 1].words;
      |r.m| == |h.m| && b + w <= |r.m| && r.m[b] == 8 * w && r.m[b + w - 1] == 8 * w
  {
    AbsorbFacts(h, i);
    var nx := h.bs[i + 1].start;
    var t := IndexFrom(h.fl, nx, 0);
    Heap(FreeWrites(h.m[h.fl[t - 1] + 1 := h.m[nx + 1]], h.bs[i].start, h.bs[i].words + h.bs[i + 1].words),
         h.head, MergeBlocks(h.bs, i), RemoveAt(h.fl, t))
  }

  /** The merged heap in terms of the position t of the absorbed block in
      the free list and of its predecessor there. */
  lemma AbsorbUnfold(h: Heap, i: nat)
    requires Valid(h) && i + 1 < |h.bs| && !h.bs[i].inUse && !h.bs[i + 1].inUse
    requires |h.fl| > 0 && h.fl[0] == h.bs[i].start
    ensures var nx := h.bs[i + 1].start;
      var t := IndexFrom(h.fl, nx, 0);
      && 0 < t < |h.fl| && h.fl[t - 1] + 1 < |h.m|
      && Absorb(h, i) == Heap(FreeWrites(h.m[h.fl[t - 1] + 1 := h.m[nx + 1]], h.bs[i].start, h.bs[i].words + h.bs[i + 1].words),
                              h.head, MergeBlocks(h.bs, i), RemoveAt(h.fl, t))
  {
    AbsorbFacts(h, i);
  }

  /** myfree(ptr), mymalloc/mymalloc.c:91-128: NULL changes nothing;
      otherwise the block is released and pushed, and when the block just
      past it is free, that block is unlinked from the list and absorbed. */
  ghost function FreeStep(h: Heap, p: nat): (r: Heap)
    requires Valid(h) && (p == NULL || p - 1 in UsedStarts(h.bs))
  {
    if p == NULL then h
    else
      ReleaseFacts(h, p - 1);
      var i, h1 := BlockIndex(h.bs, p - 1, 0), Release(h, p - 1);
      if IsAllocated(h1.m[End(h.bs[i])]) then h1 else Absorb(h1, i)
  }

  /** The forward merge keeps the heap valid. */
  lemma AbsorbValid(h: Heap, i: nat)
    requires Valid(h) && i + 1 < |h.bs| && !h.bs[i].inUse && !h.bs[i + 1].inUse
    requires |h.fl| > 0 && h.fl[0] == h.bs[i].start
    ensures Valid(Absorb(h, i))
  {
    AbsorbFacts(h, i);
    AbsorbUnfold(h, i);
    var t := IndexFrom(h.fl, h.bs[i + 1].start, 0);
    assert h.head == HeadOf(h.fl);
    MergeValid(h.m, h.bs, h.fl, i, t);
  }

  /** myfree keeps the heap valid, and myfree(NULL) changes nothing. */
  lemma FreeStepValid(h: Heap, p: nat)
    requires Valid(h) && (p == NULL || p - 1 in UsedStarts(h.bs))
    ensures Valid(FreeStep(h, p))
    ensures p == NULL ==> FreeStep(h, p) == h
  {
    if p != NULL {
      ReleaseFacts(h, p - 1);
      var i, h1 := BlockIndex(h.bs, p - 1, 0), Release(h, p - 1);
      if !IsAllocated(h1.m[End(h.bs[i])]) {
        AbsorbValid(h1, i);
      }
    }
  }

  /** After the forward merge both tags of block i hold the sum of the two
      sizes, the free list has lost block i + 1 and nothing else, its head is
      unchanged, and no block changes between free and in use. */
  lemma AbsorbShape(h: Heap, i: nat)
    requires Valid(h) && i + 1 < |h.bs| && !h.bs[i].inUse && !h.bs[i + 1].inUse
    requires |h.fl| > 0 && h.fl[0] == h.bs[i].start
    ensures var r, b, nx := Absorb(h, i), h.bs[i].start, h.bs[i + 1].start;
      var w := h.bs[i].words + h.bs[i + 1].words;
      && MarkFree(h.m[b]) + MarkFree(h.m[nx]) == 8 * w
      && |r.m| == |h.m| && b + w == End(h.bs[i + 1]) <= |r.m|
      && r.m[b] == 8 * w && r.m[b + w - 1] == 8 * w
      && r.head == h.head && HeadOf(r.fl) == HeadOf(h.fl)
      && Elems(r.fl) == Elems(h.fl) - {nx}
      && UsedStarts(r.bs) == UsedStarts(h.bs)
  {
    AbsorbFacts(h, i);
    AbsorbValid(h, i);
    var t := IndexFrom(h.fl, h.bs[i + 1].start, 0);
    var r := Absorb(h, i);
    assert TagsAt(h.m, h.bs[i]) && TagsAt(h.m, h.bs[i + 1]);
    MergeIndex(h.bs, i);
    assert TagsAt(r.m, r.bs[i]);
    ElemsRemove(h.fl, t);
    UsedStartsMerge(h.bs, i);
  }

  /** The address myfree computes for the block after the freed one,
      `block + MARK_FREE(hdr) / WORD` (mymalloc/mymalloc.c:106), is the end of
      the freed block; when its header is free, it starts the next block,
      which is on the free list, and its untagged size is that block's size. */
  lemma FreeNextFacts(h: Heap, b: nat)
    requires Valid(h) && b in UsedStarts(h.bs)
    ensures var i := BlockIndex(h.bs, b, 0);
      && i < |h.bs| && h.bs[i].start == b && End(h.bs[i]) < |h.m|
      && MarkFree(MarkAlloc(h.m[b])) == 8 * h.bs[i].words
      && b + MarkFree(MarkAlloc(h.m[b])) / WORD == End(h.bs[i])
      && (!IsAllocated(h.m[End(h.bs[i])]) ==>
           && i + 1 < |h.bs| && h.bs[i + 1].start == End(h.bs[i]) && !h.bs[i + 1].inUse
           && MarkFree(h.m[End(h.bs[i])]) == 8 * h.bs[i + 1].words
           && End(h.bs[i]) in Elems(h.fl))
  {
    UsedFacts(h, b);
    var i := BlockIndex(h.bs, b, 0);
    NextBlock(h.m, h.head, h.bs, h.fl, i);
    if !IsAllocated(h.m[End(h.bs[i])]) {
      assert TagsAt(h.m, h.bs[i + 1]);
      TagFields(h.bs[i + 1]);
      assert h.bs[i + 1].start in FreeStarts(h.bs);
    }
  }

  /** myfree when the block after the freed one is in use: both tags of the
      freed block hold its own untagged size, and it is pushed in front of
      the other nodes, which keep their order. */
  lemma FreeStepPushed(h: Heap, p: nat)
    requires Valid(h) && p != NULL && p - 1 in UsedStarts(h.bs)
    requires var i := BlockIndex(h.bs, p - 1, 0);
      i < |h.bs| && End(h.bs[i]) < |h.m| && IsAllocated(h.m[End(h.bs[i])])
    ensures var r, b, i := FreeStep(h, p), p - 1, BlockIndex(h.bs, p - 1, 0);
      && r.head == b && r.fl == [b] + h.fl
      && UsedStarts(r.bs) == UsedStarts(h.bs) - {b}
      && |r.m| == |h.m| && r.m[b] == 8 * h.bs[i].words && r.m[End(h.bs[i]) - 1] == 8 * h.bs[i].words
  {
    ReleaseShape(h, p - 1);
  }

  /** myfree when the block after the freed one is free: the freed block
      heads the list, which has lost the block after it. */
  lemma FreeStepMerged(h: Heap, p: nat)
    requires Valid(h) && p != NULL && p - 1 in UsedStarts(h.bs)
    requires var i := BlockIndex(h.bs, p - 1, 0);
      i < |h.bs| && End(h.bs[i]) < |h.m| && !IsAllocated(h.m[End(h.bs[i])])
    ensures var r, b, i := FreeStep(h, p), p - 1, BlockIndex(h.bs, p - 1, 0);
      && r.head == b && |r.fl| > 0 && r.fl[0] == b
      && Elems(r.fl) == Elems(h.fl) + {b} - {End(h.bs[i])}
      && UsedStarts(r.bs) == UsedStarts(h.bs) - {b}
  {
    var b := p - 1;
    ReleaseFacts(h, b);
    ReleaseShape(h, b);
    var i, h1 := BlockIndex(h.bs, b, 0), Release(h, b);
    AbsorbShape(h1, i);
  }

  /** myfree when the block after the freed one is free: the freed block
      now spans both blocks, and its header and footer hold the sum of the
      two sizes. */
  lemma FreeStepMergedTags(h: Heap, p: nat)
    requires Valid(h) && p != NULL && p - 1 in UsedStarts(h.bs)
    requires var i := BlockIndex(h.bs, p - 1, 0);
      i < |h.bs| && End(h.bs[i]) < |h.m| && !IsAllocated(h.m[End(h.bs[i])])
    ensures var r, b, i := FreeStep(h, p), p - 1, BlockIndex(h.bs, p - 1, 0);
      && i + 1 < |h.bs|
      && var w := h.bs[i].words + h.bs[i + 1].words;
      && |r.m| == |h.m| && b + w <= |h.m| && r.m[b] == 8 * w && r.m[b + w - 1] == 8 * w
  {
    var b := p - 1;
    FreeStepCases(h, p);
    var i, h1 := BlockIndex(h.bs, b, 0), Release(h, b);
    assert h1.bs[i].words == h.bs[i].words && h1.bs[i + 1].words == h.bs[i + 1].words;
    AbsorbTagWords(h1, i, b, h.bs[i].words + h.bs[i + 1].words);
  }

  /** Absorb's tags for block i, at the named start b and length w. */
  lemma AbsorbTagWords(h: Heap, i: nat, b: nat, w: nat)
    requires Valid(h) && i + 1 < |h.bs| && !h.bs[i].inUse && !h.bs[i + 1].inUse
    requires |h.fl| > 0 && h.fl[0] == h.bs[i].start
    requires b == h.bs[i].start && w == h.bs[i].words + h.bs[i + 1].words
    ensures var r := Absorb(h, i); |r.m| == |h.m| && b + w <= |r.m| && r.m[b] == 8 * w && r.m[b + w - 1] == 8 * w
  {
  }

  /** The two cases of myfree(p) for a live p: the released heap, and its
      forward merge when the word after the freed block is a free tag. */
  lemma FreeStepCases(h: Heap, p: nat)
    requires Valid(h) && p != NULL && p - 1 in UsedStarts(h.bs)
    ensures var i, h1 := BlockIndex(h.bs, p - 1, 0), Release(h, p - 1);
      && i < |h.bs| && h.bs[i].start == p - 1 && End(h.bs[i]) < |h.m| && Valid(h1) && |h1.m| == |h.m|
      && h1.bs == SetInUse(h.bs, i, false) && h1.fl == [p - 1] + h.fl
      && h1.m[End(h.bs[i])] == h.m[End(h.bs[i])]
      && (IsAllocated(h.m[End(h.bs[i])]) ==> FreeStep(h, p) == h1)
      && (!IsAllocated(h.m[End(h.bs[i])]) ==>
           && i + 1 < |h1.bs| && !h1.bs[i].inUse && !h1.bs[i + 1].inUse && h1.fl[0] == h1.bs[i].start
           && h1.bs[i + 1].start == End(h.bs[i]) && FreeStep(h, p) == Absorb(h1, i))
  {
    ReleaseFacts(h, p - 1);
    ReleaseShape(h, p - 1);
  }

  /** myfree takes the freed block, and only it, out of the blocks in use. */
  lemma FreeStepUsed(h: Heap, p: nat)
    requires Valid(h) && p != NULL && p - 1 in UsedStarts(h.bs)
    ensures UsedStarts(FreeStep(h, p).bs) == UsedStarts(h.bs) - {p - 1}
  {
    ReleaseShape(h, p - 1);
    var i := BlockIndex(h.bs, p - 1, 0);
    if IsAllocated(h.m[End(h.bs[i])]) {
      FreeStepPushed(h, p);
    } else {
      FreeStepMerged(h, p);
    }
  }

  /** Releasing the live block at b tags it free with its own size in both
      tags, pushes it at the head of the free list and takes it out of the
      blocks in use; the word just past it is unchanged. */
  lemma ReleaseShape(h: Heap, b: nat)
    requires Valid(h) && b in UsedStarts(h.bs)
    ensures var r, i := Release(h, b), BlockIndex(h.bs, b, 0);
      && i < |h.bs| && h.bs[i].start == b && End(h.bs[i]) < |h.m|
      && r.head == b && r.fl == [b] + h.fl && Elems(r.fl) == {b} + Elems(h.fl)
      && UsedStarts(r.bs) == UsedStarts(h.bs) - {b}
      && |r.m| == |h.m| && r.m[b] == 8 * h.bs[i].words && r.m[End(h.bs[i]) - 1] == 8 * h.bs[i].words
      && r.m[End(h.bs[i])] == h.m[End(h.bs[i])]
  {
    UsedFacts(h, b);
    ReleaseFacts(h, b);
    var i := BlockIndex(h.bs, b, 0);
    UsedStartsSetInUse(h.bs, 1, |h.m| - 1, i, false);
    StartsApart(h.bs, 1, |h.m| - 1, b);
    ElemsCons(b, h.fl);
  }

  /** myfree changes no word of a live payload other than those of the
      block it frees. */
  lemma FreeKeepsPayloads(h: Heap, p: nat)
    requires Valid(h) && (p == NULL || p - 1 in UsedStarts(h.bs))
    ensures var r := FreeStep(h, p);
      |r.m| == |h.m| &&
      forall i, x :: 0 <= i < |h.bs| && InPayload(h.bs, i, x) && h.bs[i].start + 1 != p ==>
        0 <= x < |h.m| && r.m[x] == h.m[x]
  {
    if p != NULL {
      var b := p - 1;
      ReleaseFacts(h, b);
      ReleaseKeeps(h, b);
      var g, h1 := BlockIndex(h.bs, b, 0), Release(h, b);
      if !IsAllocated(h1.m[End(h.bs[g])]) {
        AbsorbKeeps(h1, g);
      }
    }
  }

  /** Releasing the block at b changes no word of another live payload, and
      the other live payloads stay live. */
  lemma ReleaseKeeps(h: Heap, b: nat)
    requires Valid(h) && b in UsedStarts(h.bs)
    ensures var r := Release(h, b);
      |r.m| == |h.m| && |r.bs| == |h.bs| &&
      forall i, x :: 0 <= i < |h.bs| && InPayload(h.bs, i, x) && h.bs[i].start != b ==>
        0 <= x < |h.m| && r.m[x] == h.m[x] && InPayload(r.bs, i, x)
  {
    UsedFacts(h, b);
    var g, r := BlockIndex(h.bs, b, 0), Release(h, b);
    PayloadsKept(h.bs, 1, |h.m| - 1, h.m, r.m, g, g, -1, 0);
    forall i, x | 0 <= i < |h.bs| && InPayload(h.bs, i, x) && h.bs[i].start != b
      ensures InPayload(r.bs, i, x)
    {
      assert r.bs[i] == h.bs[i];
    }
  }

  /** The words the forward merge writes lie in the two merged blocks, but
      for the link word of the node before the absorbed one. */
  lemma AbsorbFrame(h: Heap, i: nat)
    requires Valid(h) && i + 1 < |h.bs| && !h.bs[i].inUse && !h.bs[i + 1].inUse
    requires |h.fl| > 0 && h.fl[0] == h.bs[i].start
    ensures var r, t := Absorb(h, i), IndexFrom(h.fl, h.bs[i + 1].start, 0);
      && |r.m| == |h.m| && 0 < t < |h.fl|
      && forall x :: 0 <= x < |h.m| && x != h.fl[t - 1] + 1 && !(h.bs[i].start <= x < End(h.bs[i + 1])) ==>
           r.m[x] == h.m[x]
  {
    AbsorbFacts(h, i);
    var nx := h.bs[i + 1].start;
    var t := IndexFrom(h.fl, nx, 0);
    FreeWritesFrame(h.m[h.fl[t - 1] + 1 := h.m[nx + 1]], h.bs[i].start, h.bs[i].words + h.bs[i + 1].words);
  }

  /** The forward merge changes no word of a live payload. */
  lemma AbsorbKeeps(h: Heap, i: nat)
    requires Valid(h) && i + 1 < |h.bs| && !h.bs[i].inUse && !h.bs[i + 1].inUse
    requires |h.fl| > 0 && h.fl[0] == h.bs[i].start
    ensures var r := Absorb(h, i);
      |r.m| == |h.m| &&
      forall g, x :: 0 <= g < |h.bs| && InPayload(h.bs, g, x) ==> 0 <= x < |h.m| && r.m[x] == h.m[x]
  {
    AbsorbFrame(h, i);
    var t := IndexFrom(h.fl, h.bs[i + 1].start, 0);
    var gq := LinkWordInside(h.m, h.head, h.bs, h.fl, t - 1);
    MergeKeepsPayloads(h.bs, 1, |h.m| - 1, h.m, Absorb(h, i).m, i, h.fl[t - 1] + 1, gq);
  }

  /** An arena whose words 1 and |m| - 2 tag one free block over all of it
      but the null word and the sentinel, with a null link, is a valid heap
      whose free list is that one block. */
  lemma InitValid(m: seq<int>)
    requires |m| >= 5 && m[1] == 8 * (|m| - 2) && m[|m| - 2] == 8 * (|m| - 2) && m[2] == NULL
    requires IsAllocated(m[|m| - 1])
    ensures ValidHeap(m, 1, [Block(1, |m| - 2, false)], [1])
  {
    var bs := [Block(1, |m| - 2, false)];
    assert TagsAt(m, bs[0]);
    assert FreeStarts(bs) == {1} by {
      assert bs[0].start in FreeStarts(bs);
    }
    assert Elems([1]) == {1} by {
      assert [1][0] in Elems([1]);
    }
  }

  // ---------------------------------------------------------------------
  // The allocator as the source runs it: stores into an array of words

  class Allocator {
    /** The arena, one element per 8-byte word; word 0 is the null address. */
    const mem: array<int>
    /** free_list_head. */
    var head: int
    /** The blocks, in address order, that the words of mem represent. */
    ghost var blocks: seq<Block>
    /** The free-list nodes, in list order. */
    ghost var freeList: seq<nat>

    ghost function State(): Heap
      reads this, mem
    {
      Heap(mem[..], head, blocks, freeList)
    }

    ghost predicate Valid()
      reads this, mem
    {
      ValidHeap(mem[..], head, blocks, freeList)
    }

    /** An arena of `arenaWords` words holding one free block that covers all
        of it but the null word and the sentinel. The source starts with an
        empty free list and never seeds it, so this is where the arena comes
        from. */
    constructor Init(arenaWords: nat)
      requires arenaWords >= 5
      ensures Valid() && fresh(mem) && mem.Length == arenaWords
      ensures blocks == [Block(1, arenaWords - 2, false)] && freeList == [1] && head == 1
      ensures mem[1] == 8 * (arenaWords - 2)
    {
      var a := new int[arenaWords];
      a[1] := 8 * (arenaWords - 2);
      a[2] := NULL;
      a[arenaWords - 2] := 8 * (arenaWords - 2);
      a[arenaWords - 1] := 1;
      InitValid(a[..]);
      mem := a;
      head := 1;
      blocks := [Block(1, arenaWords - 2, false)];
      freeList := [1];
    }

    /** A store of v into word x of the arena. */
    method WriteTag(x: nat, v: int)
      requires x < mem.Length
      modifies mem
      ensures mem[..] == old(mem[..])[x := v]
    {
      mem[x] := v;
    }

    /** mymalloc(size), mymalloc/mymalloc.c:17-89: the first-fit scan over
        the free list, with `prev` one node behind `curr`. */
    method Malloc(size: nat) returns (p: nat)
      requires Valid()
      modifies this, mem
      ensures Valid()
      ensures State() == MallocStep(old(State()), size).heap && p == MallocStep(old(State()), size).ptr
    {
      ghost var h := State();
      if size == 0 {
        return NULL;
      }
      var total := RequestTotal(size);
      NodesNonNull(h);
      var prev: nat := NULL;
      var curr: nat := head;
      ghost var k: nat := 0;
      while curr != NULL
        invariant State() == h
        invariant k <= |h.fl| && curr == if k < |h.fl| then h.fl[k] else NULL
        invariant prev == if k == 0 then NULL else h.fl[k - 1]
        invariant forall i :: 0 <= i < k ==> !Fits(h.m, h.fl[i], total)
        decreases |h.fl| - k
      {
        NodeFacts(h, k);
        var currSz := MarkFree(mem[curr]);
        if currSz >= total {
          assert FirstFit(h.m, h.fl, total, 0) == k;
          Allocate(size, total, prev, curr, currSz, k);
          MallocStepValid(h, size);
          return curr + 1;
        }
        prev := curr;
        curr := mem[curr + 1];
        k := k + 1;
      }
      return NULL;
    }

    /** mymalloc's handing out of node k, the first that fits, found at
        `chosen` with `prev` before it (mymalloc/mymalloc.c:38-80). */
    method Allocate(size: nat, total: nat, prev: nat, chosen: nat, currSz: int, ghost k: nat)
      requires Valid() && size > 0 && total == RequestTotal(size)
      requires k < |freeList| && k == FirstFit(mem[..], freeList, total, 0) && chosen == freeList[k]
      requires chosen < mem.Length && currSz == MarkFree(mem[chosen])
      requires prev == if k == 0 then NULL else freeList[k - 1]
      modifies this, mem
      ensures State() == MallocStep(old(State()), size).heap && MallocStep(old(State()), size).ptr == chosen + 1
    {
      ghost var h := State();
      if currSz - total >= MIN_BLOCK {
        ghost var j, n, w, _ := MallocSplitOutcome(h, size, k);
        SplitAt(prev, chosen, currSz, total, k, j, n, w);
      } else {
        ghost var j, w, _ := MallocWholeOutcome(h, size, k);
        TakeWholeAt(prev, chosen, currSz, k, j, w);
      }
    }

    /** The split case on the whole state: the stores of SplitChosen, then
        block j is cut into the handed-out block and the rest, which takes the
        place of node k in the free list. */
    method SplitAt(prev: nat, chosen: nat, currSz: int, total: nat, ghost k: nat, ghost j: nat, ghost n: nat, ghost w: nat)
      requires total == 8 * n && currSz == 8 * w && 3 <= n && n + 3 <= w
      requires chosen + w <= mem.Length && (prev != NULL ==> prev + 1 < mem.Length) && (prev == NULL <==> k == 0)
      requires j < |blocks| && n <= blocks[j].words && k < |freeList|
      modifies this, mem
      ensures State() == Heap(LinkFrom(SplitWrites(old(mem[..]), chosen, w, n), prev, chosen + n),
                              RelinkHead(old(head), k, chosen + n), SplitBlocks(old(blocks), j, n), old(freeList)[k := chosen + n])
    {
      BytesWords(w);
      SplitChosen(prev, chosen, currSz, total, n, w);
      blocks := SplitBlocks(blocks, j, n);
      freeList := freeList[k := chosen + n];
    }

    /** The no-split case on the whole state: the stores of TakeWhole, then
        block j is in use and node k leaves the free list. */
    method TakeWholeAt(prev: nat, chosen: nat, currSz: int, ghost k: nat, ghost j: nat, ghost w: nat)
      requires currSz == 8 * w && 3 <= w
      requires chosen + w <= mem.Length && (prev != NULL ==> prev + 1 < mem.Length) && (prev == NULL <==> k == 0)
      requires j < |blocks| && k < |freeList|
      modifies this, mem
      ensures State() == Heap(LinkFrom(AllocWrites(old(mem[..]), chosen, w), prev, old(mem[..])[chosen + 1]),
                              RelinkHead(old(head), k, old(mem[..])[chosen + 1]), SetInUse(old(blocks), j, true), RemoveAt(old(freeList), k))
    {
      BytesWords(w);
      TakeWhole(prev, chosen, currSz, w);
      blocks := SetInUse(blocks, j, true);
      freeList := RemoveAt(freeList, k);
    }

    /** The stores of mymalloc's split case (mymalloc/mymalloc.c:42-61) on
        the free block at `chosen`, of `currSz` = 8 * w bytes, for a request
        of `total` = 8 * n bytes: the rest becomes a free block with both
        tags, that inherits the chosen block's link and is linked from `prev`
        or the head, and both tags of the chosen block get MARK_ALLOC(total). */
    method SplitChosen(prev: nat, chosen: nat, currSz: int, total: nat, ghost n: nat, ghost w: nat)
      requires total == 8 * n && currSz == 8 * w && 3 <= n && n + 3 <= w
      requires chosen + w <= mem.Length && (prev != NULL ==> prev + 1 < mem.Length)
      modifies this, mem
      ensures mem[..] == LinkFrom(SplitWrites(old(mem[..]), chosen, w, n), prev, chosen + n)
      ensures head == (if prev == NULL then chosen + n else old(head))
      ensures blocks == old(blocks) && freeList == old(freeList)
    {
      SplitWritesUpdates(mem[..], chosen, w, n);
      var newFree := chosen + total / WORD;
      WriteTag(newFree, MarkFree(currSz - total));
      WriteTag(newFree + MarkFree(mem[newFree]) / WORD - 1, mem[newFree]);
      WriteTag(newFree + 1, mem[chosen + 1]);
      WriteTag(chosen, MarkAlloc(total));
      WriteTag(chosen + total / WORD - 1, mem[chosen]);
      if prev != NULL {
        WriteTag(prev + 1, newFree);
      } else {
        head := newFree;
      }
    }

    /** The stores of mymalloc's no-split case (mymalloc/mymalloc.c:66-77)
        on the free block at `chosen`, of `currSz` = 8 * w bytes: both tags
        get MARK_ALLOC(currSz) and the block's successor is linked from
        `prev` or the head. */
    method TakeWhole(prev: nat, chosen: nat, currSz: int, ghost w: nat)
      requires currSz == 8 * w && 3 <= w
      requires chosen + w <= mem.Length && (prev != NULL ==> prev + 1 < mem.Length)
      modifies this, mem
      ensures mem[..] == LinkFrom(AllocWrites(old(mem[..]), chosen, w), prev, old(mem[..])[chosen + 1])
      ensures head == (if prev == NULL then old(mem[..])[chosen + 1] else old(head))
      ensures blocks == old(blocks) && freeList == old(freeList)
    {
      WriteTag(chosen, MarkAlloc(currSz));
      WriteTag(chosen + currSz / WORD - 1, mem[chosen]);
      if prev != NULL {
        WriteTag(prev + 1, mem[chosen + 1]);
      } else {
        head := mem[chosen + 1];
      }
    }

    /** myfree(ptr), mymalloc/mymalloc.c:91-128. */
    method Free(p: nat)
      requires Valid() && (p == NULL || p - 1 in UsedStarts(blocks))
      modifies this, mem
      ensures Valid()
      ensures State() == FreeStep(old(State()), p)
    {
      ghost var h := State();
      FreeStepValid(h, p);
      if p == NULL {
        return;
      }
      var block := p - 1;
      FreeStepCases(h, p);
      ghost var i := BlockIndex(h.bs, block, 0);
      ReleaseBlock(block);
      var next := block + MarkFree(mem[block]) / WORD;
      assert next == End(h.bs[i]) && mem[next] == h.m[next];
      if !IsAllocated(mem[next]) {
        AbsorbNext(block, next, i);
      }
    }

    /** The first part of myfree (mymalloc/mymalloc.c:97-104): both tags of
        the block at `block` lose the flag and the block is pushed at the
        head of the free list. */
    method ReleaseBlock(block: nat)
      requires Valid() && block in UsedStarts(blocks)
      modifies this, mem
      ensures State() == Release(old(State()), block)
      ensures block < mem.Length && block + MarkFree(mem[block]) / WORD == End(old(blocks)[BlockIndex(old(blocks), block, 0)])
    {
      ghost var h := State();
      UsedFacts(h, block);
      ghost var i := BlockIndex(h.bs, block, 0);
      ghost var w := h.bs[i].words;
      ClearTags(block, w);
      WriteTag(block + 1, head);
      BytesWords(w);
      assert mem[block] == 8 * w;
      head := block;
      blocks := SetInUse(blocks, i, false);
      freeList := [block] + freeList;
    }

    /** The stores of myfree that clear the flag of the block at `block`, of
        `w` words, in its header and then in its footer
        (mymalloc/mymalloc.c:97-100). */
    method ClearTags(block: nat, ghost w: nat)
      requires 3 <= w && block + w <= mem.Length && MarkFree(MarkAlloc(mem[block])) == 8 * w
      modifies mem
      ensures mem[..] == FreeWrites(old(mem[..]), block, w)
    {
      var sz := MarkAlloc(mem[block]);
      BytesWords(w);
      WriteTag(block, MarkFree(sz));
      WriteTag(block + MarkFree(sz) / WORD - 1, mem[block]);
    }

    /** myfree's forward merge (mymalloc/mymalloc.c:106-124): the free block
        at `next`, right after the freed block i that heads the list, is
        searched for and unlinked, and block i absorbs it. */
    method AbsorbNext(block: nat, next: nat, ghost i: nat)
      requires Valid() && i + 1 < |blocks| && !blocks[i].inUse && !blocks[i + 1].inUse
      requires |freeList| > 0 && freeList[0] == blocks[i].start == block && next == blocks[i + 1].start
      modifies this, mem
      ensures State() == Absorb(old(State()), i)
    {
      ghost var h := State();
      AbsorbFacts(h, i);
      AbsorbUnfold(h, i);
      ghost var t := IndexFrom(h.fl, next, 0);
      Unlink(next, t);
      ghost var w := h.bs[i].words + h.bs[i + 1].words;
      MergeSizes(block, next, w);
      blocks := MergeBlocks(blocks, i);
      freeList := RemoveAt(freeList, t);
    }

    /** The unlinking of `next` in myfree (mymalloc/mymalloc.c:109-120): the
        search finds it at position t > 0 of the list, and its predecessor's
        link word takes its successor. */
    method Unlink(next: nat, ghost t: nat)
      requires Valid() && 0 < t < |freeList| && t == IndexFrom(freeList, next, 0)
      modifies mem
      ensures freeList[t - 1] + 1 < mem.Length && next + 1 < mem.Length
      ensures mem[..] == old(mem[..])[freeList[t - 1] + 1 := old(mem[next + 1])]
    {
      ghost var h := State();
      NodesNonNull(h);
      NodeFacts(h, t);
      NodeFacts(h, t - 1);
      var q, cur := FindPrev(next);
      if cur != NULL {
        if q != NULL {
          WriteTag(q + 1, mem[cur + 1]);
        } else {
          // t > 0, so the search has moved at least once and q is a node.
          assert false;
        }
      }
    }

    /** The merge stores of myfree (mymalloc/mymalloc.c:122-124): both tags of
        the freed block take the sum of the two free sizes, `w` words. */
    method MergeSizes(block: nat, next: nat, ghost w: nat)
      requires block < mem.Length && next < mem.Length && 1 <= w && block + w <= mem.Length
      requires MarkFree(mem[block]) + MarkFree(mem[next]) == 8 * w
      modifies mem
      ensures mem[..] == FreeWrites(old(mem[..]), block, w)
    {
      var newSz := MarkFree(mem[block]) + MarkFree(mem[next]);
      BytesWords(w);
      WriteTag(block, newSz);
      WriteTag(block + newSz / WORD - 1, newSz);
    }

    /** The search loop of myfree (mymalloc/mymalloc.c:109-114): walks the
        free list from the head until it reaches `next` or runs off the end,
        with `q` one node behind. `cur` is `next` when `next` is on the list
        and null otherwise, and `q` is the node before the first occurrence
        (null when that is the head). */
    method FindPrev(next: nat) returns (q: nat, cur: nat)
      requires Valid()
      ensures var t := IndexFrom(freeList, next, 0);
        && cur == (if t < |freeList| then next else NULL)
        && q == (if t == 0 then NULL else freeList[t - 1])
    {
      ghost var h := State();
      NodesNonNull(h);
      q, cur := NULL, head;
      ghost var t: nat := 0;
      while cur != NULL && cur != next
        invariant t <= IndexFrom(h.fl, next, 0)
        invariant cur == if t < |h.fl| then h.fl[t] else NULL
        invariant q == if t == 0 then NULL else h.fl[t - 1]
        decreases |h.fl| - t
      {
        NodeFacts(h, t);
        q := cur;
        cur := mem[cur + 1];
        t := t + 1;
      }
    }

    /** A store `*x = v` into a word of a live payload. */
    method Store(x: nat, v: int)
      requires Valid() && exists i :: 0 <= i < |blocks| && InPayload(blocks, i, x)
      modifies mem
      ensures Valid() && x < mem.Length && mem[..] == old(mem[..])[x := v]
    {
      ghost var i :| 0 <= i < |blocks| && InPayload(blocks, i, x);
      StoreValid(mem[..], head, blocks, freeList, i, x, v);
      mem[x] := v;
    }
  }
}
