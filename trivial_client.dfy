/** The trivial test of mymalloc/tests/tests-trivial.c, as a client of the
    allocator class. */
module MyMallocClient {
  import opened BoundaryTags
  import opened MyMalloc

  /** mymalloc(4) when the head of the free list has room for the request
      and a rest of at least MIN_BLOCK bytes: the head is split, the pointer
      is the word after its header and lies in a live payload, its block was
      not in use and is now, no live payload word changes, and the rest
      heads the list. */
  lemma MallocFour(h: Heap)
    requires Valid(h) && |h.fl| > 0 && Fits(h.m, h.fl[0], 48)
    ensures var r, s := MallocStep(h, 4), h.fl[0];
      && r.ptr == s + 1 && Valid(r.heap)
      && (exists i :: 0 <= i < |r.heap.bs| && InPayload(r.heap.bs, i, r.ptr))
      && s !in UsedStarts(h.bs) && UsedStarts(r.heap.bs) == UsedStarts(h.bs) + {s}
      && |r.heap.m| == |h.m|
      && (forall i, x :: 0 <= i < |h.bs| && InPayload(h.bs, i, x) ==> x < |h.m| && r.heap.m[x] == h.m[x])
      && |r.heap.fl| > 0 && r.heap.fl[0] == s + 3 && s + 3 < |h.m| && r.heap.m[s + 3] == MarkFree(h.m[s]) - 24
  {
    MallocFourHead(h);
    var r := MallocStep(h, 4);
    MallocStepBlock(h, 4);
    MallocKeepsPayloads(h, 4);
    MallocStepValid(h, 4);
    FirstPayloadWord(r.heap, h.fl[0]);
  }

  /** mymalloc(4) under the conditions of MallocFour picks the head of the
      free list and splits it, so the rest of 24 bytes less heads the list. */
  lemma MallocFourHead(h: Heap)
    requires Valid(h) && |h.fl| > 0 && Fits(h.m, h.fl[0], 48)
    ensures var r, s := MallocStep(h, 4), h.fl[0];
      && r.ptr == s + 1 && |r.heap.m| == |h.m|
      && |r.heap.fl| > 0 && r.heap.fl[0] == s + 3 && s + 3 < |h.m| && r.heap.m[s + 3] == MarkFree(h.m[s]) - 24
  {
    assert RequestTotal(4) == 24 && 24 / WORD == 3;
    assert FirstFit(h.m, h.fl, 24, 0) == 0;
    MallocStepSplit(h, 4, 0);
  }

  /** `p = mymalloc(4); *p = v;` under the conditions of MallocFour: the
      pointer is not NULL, the value reads back, no other word of a live
      payload changes, and its block joins the blocks in use. */
  method MallocAndStore(a: Allocator, v: int) returns (p: nat)
    requires a.Valid() && |a.freeList| > 0 && Fits(a.mem[..], a.freeList[0], 48)
    modifies a, a.mem
    ensures a.Valid()
    ensures p == old(a.freeList[0]) + 1 && p < a.mem.Length && a.mem[p] == v
    ensures exists i :: 0 <= i < |a.blocks| && InPayload(a.blocks, i, p)
    ensures p - 1 !in UsedStarts(old(a.blocks)) && UsedStarts(a.blocks) == UsedStarts(old(a.blocks)) + {p - 1}
    ensures forall i, x :: 0 <= i < |old(a.blocks)| && InPayload(old(a.blocks), i, x) && x != p ==>
      x < a.mem.Length && a.mem[x] == old(a.mem[x])
    ensures |a.freeList| > 0 && a.freeList[0] == p + 2 && a.mem[p + 2] == MarkFree(old(a.mem[p - 1])) - 24
  {
    p := MallocFourOn(a);
    a.Store(p, v);
  }

  /** `p = mymalloc(4);` on the allocator, under the conditions of MallocFour. */
  method MallocFourOn(a: Allocator) returns (p: nat)
    requires a.Valid() && |a.freeList| > 0 && Fits(a.mem[..], a.freeList[0], 48)
    modifies a, a.mem
    ensures a.Valid()
    ensures p == old(a.freeList[0]) + 1 && p < a.mem.Length
    ensures exists i :: 0 <= i < |a.blocks| && InPayload(a.blocks, i, p)
    ensures p - 1 !in UsedStarts(old(a.blocks)) && UsedStarts(a.blocks) == UsedStarts(old(a.blocks)) + {p - 1}
    ensures forall i, x :: 0 <= i < |old(a.blocks)| && InPayload(old(a.blocks), i, x) ==>
      x < a.mem.Length && a.mem[x] == old(a.mem[x])
    ensures |a.freeList| > 0 && a.freeList[0] == p + 2 && p + 2 < a.mem.Length && a.mem[p + 2] == MarkFree(old(a.mem[p - 1])) - 24
  {
    ghost var h := a.State();
    ghost var r := MallocStep(h, 4);
    MallocFour(h);
    p := a.Malloc(4);
    assert a.mem[..] == r.heap.m && a.blocks == r.heap.bs && a.freeList == r.heap.fl;
  }

  /** On a fresh arena of 64 words, two requests of 4 bytes both succeed at
      different payloads, the values stored through them read back, the
      first doubled being the second, and both pointers can be freed. */
  method Trivial() returns (p1: nat, p2: nat, v1: int, v2: int)
    ensures p1 != NULL && p2 != NULL && p1 != p2
    ensures v1 == 1024 && v2 == 2048 && v1 * 2 == v2
  {
    var a := new Allocator.Init(64);
    p1 := MallocAndStore(a, 1024);
    ghost var i1 :| 0 <= i1 < |a.blocks| && InPayload(a.blocks, i1, p1);
    ghost var used1 := UsedStarts(a.blocks);
    p2 := MallocAndStore(a, 2048);
    assert p1 - 1 in used1 && p2 - 1 !in used1;
    v1, v2 := a.mem[p1], a.mem[p2];
    assert p1 - 1 in UsedStarts(a.blocks) && p2 - 1 in UsedStarts(a.blocks) - {p1 - 1};
    FreeStepUsed(a.State(), p1);
    a.Free(p1);
    a.Free(p2);
  }
}
