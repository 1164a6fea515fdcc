/** Boundary tags, block layout and the free-list invariant of the allocator
    in mymalloc/mymalloc.c, stated over the heap as a sequence of 8-byte words.

    Offsets count words: word `o` holds the bytes at 8 * o .. 8 * o + 7.
    Sizes, tags and requests are in bytes, as in the source, so a block of
    `w` words carries the tag `8 * w`, with the low bit set while it is in use.
    Word 0 stands for the null address and never belongs to a block; the
    blocks tile words 1 .. |m| - 2 and the last word is a sentinel tag that is
    marked allocated, so that looking at "the block after the last one" stops
    there. */
module BoundaryTags {

  /** sizeof(size_t): the size of a header, a footer or a link word. */
  const WORD: nat := 8
  /** MIN_BLOCK = sizeof(free_block_t) + sizeof(size_t): header, link and footer. */
  const MIN_BLOCK: nat := 24
  /** The null address. */
  const NULL: nat := 0

  // ---------------------------------------------------------------------
  // The tag macros

  /** ALIGN8(x) = (x + 7) & ~7: the least multiple of 8 that is at least x. */
  function Align8(x: nat): (r: nat)
    ensures r % 8 == 0 && x <= r < x + 8
  {
    (x + 7) - (x + 7) % 8
  }

  /** IS_ALLOCATED(s): the low bit of a tag is the in-use flag. */
  predicate IsAllocated(tag: int) {
    tag % 2 != 0
  }

  /** MARK_FREE(s) = s & ~1: clears the flag and nothing else. */
  function MarkFree(tag: int): (r: int)
    ensures !IsAllocated(r)
    ensures IsAllocated(tag) ==> r == tag - 1
    ensures !IsAllocated(tag) ==> r == tag
  {
    tag - tag % 2
  }

  /** MARK_ALLOC(s) = s | 1: sets the flag and keeps the size. */
  function MarkAlloc(tag: int): (r: int)
    ensures IsAllocated(r) && MarkFree(r) == MarkFree(tag)
  {
    MarkFree(tag) + 1
  }

  /** The block size mymalloc computes for a request of `size` bytes:
      the payload rounded up to a multiple of 8, plus a header and a footer word
      (size_t wrap-around is left to the finding in size_overflow.dfy). */
  function RequestTotal(size: nat): (total: nat)
    ensures total % WORD == 0
    ensures size + 2 * WORD <= total < size + 3 * WORD
    ensures size > 0 ==> total >= MIN_BLOCK
  {
    Align8(size) + 2 * WORD
  }

  /** The block of a request, in words. */
  lemma RequestWords(size: nat)
    requires size > 0
    ensures var total := RequestTotal(size);
      total == 8 * (total / WORD) && 3 <= total / WORD
  {
  }

  /** A size of w words, in bytes, back in words. */
  lemma BytesWords(w: nat)
    ensures (8 * w) / WORD == w
  {
  }

  // ---------------------------------------------------------------------
  // Blocks

  /** A block: its first word, its length in words and whether it is in use. */
  datatype Block = Block(start: nat, words: nat, inUse: bool)

  /** One past the last word of a block. */
  function End(b: Block): nat {
    b.start + b.words
  }

  /** The tagged size a block carries in its header and its footer. */
  function Tag(b: Block): int {
    if b.inUse then 8 * b.words + 1 else 8 * b.words
  }

  /** A tag reads back as the block's size in bytes and its state:
      MARK_FREE gives 8 * words, IS_ALLOCATED gives the state, and the tag of a
      block in use is MARK_ALLOC of its size. */
  lemma TagFields(b: Block)
    ensures MarkFree(Tag(b)) == 8 * b.words
    ensures IsAllocated(Tag(b)) <==> b.inUse
    ensures Tag(b) == if b.inUse then MarkAlloc(8 * b.words) else MarkFree(8 * b.words)
  {
  }

  /** The blocks `bs`, in address order, cover the words lo .. hi - 1 exactly,
      each one long enough to hold a header, a link and a footer. */
  ghost predicate Tiled(bs: seq<Block>, lo: nat, hi: nat) {
    && (|bs| == 0 ==> lo == hi)
    && (|bs| > 0 ==> bs[0].start == lo && End(bs[|bs| - 1]) == hi)
    && (forall i :: 0 <= i < |bs| ==> lo <= bs[i].start && End(bs[i]) <= hi && 8 * bs[i].words >= MIN_BLOCK)
    && (forall i :: 0 < i < |bs| ==> bs[i].start == End(bs[i - 1]))
  }

  /** Blocks come in strictly increasing address order. */
  lemma {:induction false} TiledOrder(bs: seq<Block>, lo: nat, hi: nat, i: nat, j: nat)
    requires Tiled(bs, lo, hi) && i < j < |bs|
    ensures End(bs[i]) <= bs[j].start
    decreases j - i
  {
    if i + 1 < j {
      TiledOrder(bs, lo, hi, i, j - 1);
    }
  }

  /** Two different blocks share no word. */
  lemma TiledDisjoint(bs: seq<Block>, lo: nat, hi: nat, i: nat, j: nat)
    requires Tiled(bs, lo, hi) && i < |bs| && j < |bs| && i != j
    ensures End(bs[i]) <= bs[j].start || End(bs[j]) <= bs[i].start
  {
    if i < j {
      TiledOrder(bs, lo, hi, i, j);
    } else {
      TiledOrder(bs, lo, hi, j, i);
    }
  }

  /** The starts of the free blocks. */
  ghost function FreeStarts(bs: seq<Block>): set<nat> {
    set i | 0 <= i < |bs| && !bs[i].inUse :: bs[i].start
  }

  /** The starts of the blocks in use. */
  ghost function UsedStarts(bs: seq<Block>): set<nat> {
    set i | 0 <= i < |bs| && bs[i].inUse :: bs[i].start
  }

  /** A free start names exactly one block, and that block is free. */
  lemma FreeBlockOf(bs: seq<Block>, lo: nat, hi: nat, x: nat) returns (i: nat)
    requires Tiled(bs, lo, hi) && x in FreeStarts(bs)
    ensures i < |bs| && bs[i].start == x && !bs[i].inUse
    ensures forall g :: 0 <= g < |bs| && g != i ==> End(bs[g]) <= x || End(bs[i]) <= bs[g].start
  {
    i :| 0 <= i < |bs| && !bs[i].inUse && bs[i].start == x;
    forall g | 0 <= g < |bs| && g != i
      ensures End(bs[g]) <= x || End(bs[i]) <= bs[g].start
    {
      TiledDisjoint(bs, lo, hi, g, i);
    }
  }

  /** A used start names exactly one block, and that block is in use. */
  lemma UsedBlockOf(bs: seq<Block>, lo: nat, hi: nat, x: nat) returns (i: nat)
    requires Tiled(bs, lo, hi) && x in UsedStarts(bs)
    ensures i < |bs| && bs[i].start == x && bs[i].inUse
    ensures forall g :: 0 <= g < |bs| && g != i ==> End(bs[g]) <= x || End(bs[i]) <= bs[g].start
  {
    i :| 0 <= i < |bs| && bs[i].inUse && bs[i].start == x;
    forall g | 0 <= g < |bs| && g != i
      ensures End(bs[g]) <= x || End(bs[i]) <= bs[g].start
    {
      TiledDisjoint(bs, lo, hi, g, i);
    }
  }

  // ---------------------------------------------------------------------
  // How mymalloc and myfree change the block sequence

  /** Split: the low `n` words of block j become a block in use, the rest a free block. */
  function SplitBlocks(bs: seq<Block>, j: nat, n: nat): seq<Block>
    requires j < |bs| && n <= bs[j].words
  {
    bs[..j] + [Block(bs[j].start, n, true), Block(bs[j].start + n, bs[j].words - n, false)] + bs[j + 1..]
  }

  /** Block j changes state and keeps its place and size. */
  function SetInUse(bs: seq<Block>, j: nat, used: bool): seq<Block>
    requires j < |bs|
  {
    bs[j := bs[j].(inUse := used)]
  }

  /** Block i absorbs the block after it, and the result is free. */
  function MergeBlocks(bs: seq<Block>, i: nat): seq<Block>
    requires i + 1 < |bs|
  {
    bs[..i] + [Block(bs[i].start, bs[i].words + bs[i + 1].words, false)] + bs[i + 2..]
  }

  /** The blocks of a split, index by index. */
  lemma SplitIndex(bs: seq<Block>, j: nat, n: nat)
    requires j < |bs| && n <= bs[j].words
    ensures var r := SplitBlocks(bs, j, n);
      && |r| == |bs| + 1
      && (forall i :: 0 <= i < j ==> r[i] == bs[i])
      && r[j] == Block(bs[j].start, n, true)
      && r[j + 1] == Block(bs[j].start + n, bs[j].words - n, false)
      && (forall i :: j + 1 < i < |r| ==> r[i] == bs[i - 1])
  {
  }

  /** The blocks of a merge, index by index. */
  lemma MergeIndex(bs: seq<Block>, i: nat)
    requires i + 1 < |bs|
    ensures var r := MergeBlocks(bs, i);
      && |r| == |bs| - 1
      && (forall g :: 0 <= g < i ==> r[g] == bs[g])
      && r[i] == Block(bs[i].start, bs[i].words + bs[i + 1].words, false)
      && (forall g :: i < g < |r| ==> r[g] == bs[g + 1])
  {
  }

  lemma SplitTiled(bs: seq<Block>, lo: nat, hi: nat, j: nat, n: nat)
    requires Tiled(bs, lo, hi) && j < |bs| && 8 * n >= MIN_BLOCK && 8 * (bs[j].words - n) >= MIN_BLOCK
    requires n <= bs[j].words
    ensures Tiled(SplitBlocks(bs, j, n), lo, hi)
  {
    var r := SplitBlocks(bs, j, n);
    SplitIndex(bs, j, n);
    forall i | 0 < i < |r|
      ensures r[i].start == End(r[i - 1])
    {
      if j + 2 < i {
        assert r[i] == bs[i - 1] && r[i - 1] == bs[i - 2];
      }
    }
  }

  lemma SetInUseTiled(bs: seq<Block>, lo: nat, hi: nat, j: nat, used: bool)
    requires Tiled(bs, lo, hi) && j < |bs|
    ensures Tiled(SetInUse(bs, j, used), lo, hi)
  {
  }

  lemma MergeTiled(bs: seq<Block>, lo: nat, hi: nat, i: nat)
    requires Tiled(bs, lo, hi) && i + 1 < |bs|
    ensures Tiled(MergeBlocks(bs, i), lo, hi)
  {
    var r := MergeBlocks(bs, i);
    MergeIndex(bs, i);
    forall g | 0 <= g < |r|
      ensures lo <= r[g].start && End(r[g]) <= hi && 8 * r[g].words >= MIN_BLOCK
    {
      if i < g {
        assert r[g] == bs[g + 1];
      }
    }
    forall g | 0 < g < |r|
      ensures r[g].start == End(r[g - 1])
    {
      if i + 1 < g {
        assert r[g] == bs[g + 1] && r[g - 1] == bs[g];
      } else if g == i + 1 {
        assert r[g] == bs[g + 1];
      }
    }
    assert End(r[|r| - 1]) == hi by {
      if i + 1 < |r| {
        assert r[|r| - 1] == bs[|bs| - 1];
      }
    }
  }

  lemma FreeStartsSplit(bs: seq<Block>, lo: nat, hi: nat, j: nat, n: nat)
    requires Tiled(bs, lo, hi) && j < |bs| && !bs[j].inUse && 0 < n < bs[j].words
    ensures FreeStarts(SplitBlocks(bs, j, n)) == FreeStarts(bs) - {bs[j].start} + {bs[j].start + n}
  {
    FreeStartsSplitSub(bs, lo, hi, j, n);
    FreeStartsSplitSup(bs, lo, hi, j, n);
  }

  lemma FreeStartsSplitSub(bs: seq<Block>, lo: nat, hi: nat, j: nat, n: nat)
    requires Tiled(bs, lo, hi) && j < |bs| && !bs[j].inUse && 0 < n < bs[j].words
    ensures FreeStarts(SplitBlocks(bs, j, n)) <= FreeStarts(bs) - {bs[j].start} + {bs[j].start + n}
  {
    var r := SplitBlocks(bs, j, n);
    forall x | x in FreeStarts(r)
      ensures x in FreeStarts(bs) - {bs[j].start} + {bs[j].start + n}
    {
      var i :| 0 <= i < |r| && !r[i].inUse && r[i].start == x;
      FreeStartSplitOne(bs, lo, hi, j, n, i);
    }
  }

  /** Where the start of a free block of a split comes from. */
  lemma FreeStartSplitOne(bs: seq<Block>, lo: nat, hi: nat, j: nat, n: nat, i: nat)
    requires Tiled(bs, lo, hi) && j < |bs| && 0 < n < bs[j].words
    requires i < |SplitBlocks(bs, j, n)| && !SplitBlocks(bs, j, n)[i].inUse
    ensures SplitBlocks(bs, j, n)[i].start in FreeStarts(bs) - {bs[j].start} + {bs[j].start + n}
  {
    var r := SplitBlocks(bs, j, n);
    SplitIndex(bs, j, n);
    if i < j {
      TiledOrder(bs, lo, hi, i, j);
      assert r[i] == bs[i];
      assert bs[i].start in FreeStarts(bs);
    } else if j + 1 < i {
      TiledOrder(bs, lo, hi, j, i - 1);
      assert r[i] == bs[i - 1];
      assert bs[i - 1].start in FreeStarts(bs);
    }
  }

  lemma FreeStartsSplitSup(bs: seq<Block>, lo: nat, hi: nat, j: nat, n: nat)
    requires Tiled(bs, lo, hi) && j < |bs| && !bs[j].inUse && 0 < n < bs[j].words
    ensures FreeStarts(bs) - {bs[j].start} + {bs[j].start + n} <= FreeStarts(SplitBlocks(bs, j, n))
  {
    var r := SplitBlocks(bs, j, n);
    var s := bs[j].start;
    SplitIndex(bs, j, n);
    forall x | x in FreeStarts(bs) - {s} + {s + n}
      ensures x in FreeStarts(r)
    {
      if x == s + n {
        assert r[j + 1].start == x && !r[j + 1].inUse;
      } else {
        var i :| 0 <= i < |bs| && !bs[i].inUse && bs[i].start == x;
        if i < j {
          assert r[i] == bs[i];
        } else {
          assert r[i + 1] == bs[i];
        }
      }
    }
  }

  lemma FreeStartsSetInUse(bs: seq<Block>, lo: nat, hi: nat, j: nat, used: bool)
    requires Tiled(bs, lo, hi) && j < |bs|
    ensures used ==> FreeStarts(SetInUse(bs, j, used)) == FreeStarts(bs) - {bs[j].start}
    ensures !used ==> FreeStarts(SetInUse(bs, j, used)) == FreeStarts(bs) + {bs[j].start}
  {
    var r := SetInUse(bs, j, used);
    var s := bs[j].start;
    OtherStarts(bs, lo, hi, j, used);
    forall x | x in FreeStarts(r)
      ensures x in FreeStarts(bs) - {s} || (!used && x == s)
    {
      var i :| 0 <= i < |r| && !r[i].inUse && r[i].start == x;
    }
    forall x | x in FreeStarts(bs) && x != s
      ensures x in FreeStarts(r)
    {
      var i :| 0 <= i < |bs| && !bs[i].inUse && bs[i].start == x;
      assert r[i] == bs[i];
    }
    if !used {
      assert r[j].start == s && !r[j].inUse;
    }
  }

  /** Setting the flag of block j leaves the other blocks as they were, and
      none of them starts where block j does. */
  lemma OtherStarts(bs: seq<Block>, lo: nat, hi: nat, j: nat, used: bool)
    requires Tiled(bs, lo, hi) && j < |bs|
    ensures var r := SetInUse(bs, j, used);
      && |r| == |bs| && r[j].start == bs[j].start && r[j].inUse == used && r[j].words == bs[j].words
      && forall i :: 0 <= i < |bs| && i != j ==> r[i] == bs[i] && r[i].start != bs[j].start
  {
    forall i | 0 <= i < |bs| && i != j
      ensures bs[i].start != bs[j].start
    {
      TiledDisjoint(bs, lo, hi, i, j);
    }
  }

  lemma FreeStartsMerge(bs: seq<Block>, lo: nat, hi: nat, i: nat)
    requires Tiled(bs, lo, hi) && i + 1 < |bs| && !bs[i].inUse && !bs[i + 1].inUse
    ensures FreeStarts(MergeBlocks(bs, i)) == FreeStarts(bs) - {bs[i + 1].start}
  {
    var r := MergeBlocks(bs, i);
    var c := bs[i + 1].start;
    MergeIndex(bs, i);
    forall x | x in FreeStarts(r)
      ensures x in FreeStarts(bs) - {c}
    {
      var g :| 0 <= g < |r| && !r[g].inUse && r[g].start == x;
      FreeStartMergeOne(bs, lo, hi, i, g);
    }
    forall x | x in FreeStarts(bs) - {c}
      ensures x in FreeStarts(r)
    {
      var g :| 0 <= g < |bs| && !bs[g].inUse && bs[g].start == x;
      if g < i {
        assert r[g] == bs[g];
      } else if g == i {
        assert r[i].start == x && !r[i].inUse;
      } else {
        assert g != i + 1;
        assert r[g - 1] == bs[g];
      }
    }
  }

  /** Where the start of a free block of a merge comes from. */
  lemma FreeStartMergeOne(bs: seq<Block>, lo: nat, hi: nat, i: nat, g: nat)
    requires Tiled(bs, lo, hi) && i + 1 < |bs| && !bs[i].inUse
    requires g < |MergeBlocks(bs, i)| && !MergeBlocks(bs, i)[g].inUse
    ensures MergeBlocks(bs, i)[g].start in FreeStarts(bs) - {bs[i + 1].start}
  {
    var r := MergeBlocks(bs, i);
    MergeIndex(bs, i);
    if g < i {
      TiledOrder(bs, lo, hi, g, i + 1);
      assert r[g] == bs[g];
      assert bs[g].start in FreeStarts(bs);
    } else if g == i {
      assert bs[i].start in FreeStarts(bs);
    } else {
      TiledOrder(bs, lo, hi, i + 1, g + 1);
      assert r[g] == bs[g + 1];
      assert bs[g + 1].start in FreeStarts(bs);
    }
  }

  lemma UsedStartsSetInUse(bs: seq<Block>, lo: nat, hi: nat, j: nat, used: bool)
    requires Tiled(bs, lo, hi) && j < |bs|
    ensures used ==> UsedStarts(SetInUse(bs, j, used)) == UsedStarts(bs) + {bs[j].start}
    ensures !used ==> UsedStarts(SetInUse(bs, j, used)) == UsedStarts(bs) - {bs[j].start}
  {
    var r := SetInUse(bs, j, used);
    var s := bs[j].start;
    OtherStarts(bs, lo, hi, j, used);
    forall x | x in UsedStarts(r)
      ensures x in UsedStarts(bs) - {s} || (used && x == s)
    {
      var i :| 0 <= i < |r| && r[i].inUse && r[i].start == x;
    }
    forall x | x in UsedStarts(bs) && x != s
      ensures x in UsedStarts(r)
    {
      var i :| 0 <= i < |bs| && bs[i].inUse && bs[i].start == x;
      assert r[i] == bs[i];
    }
    if used {
      assert r[j].start == s && r[j].inUse;
    }
  }

  /** A split hands out the low part of a free block: the blocks in use gain
      exactly that block. */
  lemma UsedStartsSplit(bs: seq<Block>, j: nat, n: nat)
    requires j < |bs| && !bs[j].inUse && 0 < n < bs[j].words
    ensures UsedStarts(SplitBlocks(bs, j, n)) == UsedStarts(bs) + {bs[j].start}
  {
    var r := SplitBlocks(bs, j, n);
    SplitIndex(bs, j, n);
    forall x | x in UsedStarts(r)
      ensures x in UsedStarts(bs) + {bs[j].start}
    {
      var i :| 0 <= i < |r| && r[i].inUse && r[i].start == x;
      if i < j {
        assert r[i] == bs[i];
      } else if j + 1 < i {
        assert r[i] == bs[i - 1];
      }
    }
    forall x | x in UsedStarts(bs) + {bs[j].start}
      ensures x in UsedStarts(r)
    {
      if x == bs[j].start {
        assert r[j].start == x && r[j].inUse;
      } else {
        var i :| 0 <= i < |bs| && bs[i].inUse && bs[i].start == x;
        if i < j {
          assert r[i] == bs[i];
        } else {
          assert r[i + 1] == bs[i];
        }
      }
    }
  }

  /** Merging two free blocks leaves the blocks in use alone. */
  lemma UsedStartsMerge(bs: seq<Block>, i: nat)
    requires i + 1 < |bs| && !bs[i].inUse && !bs[i + 1].inUse
    ensures UsedStarts(MergeBlocks(bs, i)) == UsedStarts(bs)
  {
    var r := MergeBlocks(bs, i);
    MergeIndex(bs, i);
    forall x | x in UsedStarts(r)
      ensures x in UsedStarts(bs)
    {
      var g :| 0 <= g < |r| && r[g].inUse && r[g].start == x;
      if g < i {
        assert r[g] == bs[g];
      } else {
        assert r[g] == bs[g + 1];
      }
    }
    forall x | x in UsedStarts(bs)
      ensures x in UsedStarts(r)
    {
      var g :| 0 <= g < |bs| && bs[g].inUse && bs[g].start == x;
      if g < i {
        assert r[g] == bs[g];
      } else {
        assert r[g - 1] == bs[g];
      }
    }
  }

  /** No start is both that of a free block and that of a block in use. */
  lemma StartsApart(bs: seq<Block>, lo: nat, hi: nat, x: nat)
    requires Tiled(bs, lo, hi)
    ensures !(x in FreeStarts(bs) && x in UsedStarts(bs))
  {
    if x in FreeStarts(bs) && x in UsedStarts(bs) {
      var i :| 0 <= i < |bs| && !bs[i].inUse && bs[i].start == x;
      var g :| 0 <= g < |bs| && bs[g].inUse && bs[g].start == x;
      TiledDisjoint(bs, lo, hi, i, g);
    }
  }

  /** The index of the first block at or after i that starts at x, or |bs|. */
  function BlockIndex(bs: seq<Block>, x: nat, i: nat): (r: nat)
    requires i <= |bs|
    ensures i <= r <= |bs|
    ensures r < |bs| ==> bs[r].start == x
    ensures forall g :: i <= g < r ==> bs[g].start != x
    decreases |bs| - i
  {
    if i == |bs| then i else if bs[i].start == x then i else BlockIndex(bs, x, i + 1)
  }

  /** In a tiling, the search finds the one block that starts at x. */
  lemma BlockIndexFound(bs: seq<Block>, lo: nat, hi: nat, g: nat)
    requires Tiled(bs, lo, hi) && g < |bs|
    ensures BlockIndex(bs, bs[g].start, 0) == g
  {
    var r := BlockIndex(bs, bs[g].start, 0);
    if r != g {
      TiledDisjoint(bs, lo, hi, r, g);
    }
  }

  // ---------------------------------------------------------------------
  // The free list

  /** The value of the `next` word of the k-th free-list node. */
  function Succ(fl: seq<nat>, k: nat): nat
    requires k < |fl|
  {
    if k + 1 < |fl| then fl[k + 1] else NULL
  }

  /** The value of free_list_head for the list fl. */
  function HeadOf(fl: seq<nat>): nat {
    if fl == [] then NULL else fl[0]
  }

  ghost predicate NoDup(fl: seq<nat>) {
    forall a, b :: 0 <= a < b < |fl| ==> fl[a] != fl[b]
  }

  ghost function Elems(fl: seq<nat>): set<nat> {
    set x | x in fl
  }

  /** Removing the t-th node of a free list. */
  function RemoveAt(fl: seq<nat>, t: nat): seq<nat>
    requires t < |fl|
  {
    fl[..t] + fl[t + 1..]
  }

  lemma ElemsReplace(fl: seq<nat>, k: nat, y: nat)
    requires NoDup(fl) && k < |fl| && y !in fl
    ensures Elems(fl[k := y]) == Elems(fl) - {fl[k]} + {y}
    ensures NoDup(fl[k := y])
  {
    var r := fl[k := y];
    forall x | x in Elems(fl) - {fl[k]} + {y}
      ensures x in Elems(r)
    {
      if x != y {
        var t :| 0 <= t < |fl| && fl[t] == x;
        assert r[t] == x;
      } else {
        assert r[k] == y;
      }
    }
  }

  lemma ElemsRemove(fl: seq<nat>, t: nat)
    requires NoDup(fl) && t < |fl|
    ensures Elems(RemoveAt(fl, t)) == Elems(fl) - {fl[t]}
    ensures NoDup(RemoveAt(fl, t))
    ensures |RemoveAt(fl, t)| == |fl| - 1
    ensures forall u :: 0 <= u < t ==> RemoveAt(fl, t)[u] == fl[u]
    ensures forall u :: t <= u < |fl| - 1 ==> RemoveAt(fl, t)[u] == fl[u + 1]
  {
    var r := RemoveAt(fl, t);
    forall x | x in Elems(r)
      ensures x in Elems(fl) - {fl[t]}
    {
      var u :| 0 <= u < |r| && r[u] == x;
      if u < t {
        assert fl[u] == x;
      } else {
        assert fl[u + 1] == x;
      }
    }
    forall x | x in Elems(fl) - {fl[t]}
      ensures x in Elems(r)
    {
      var u :| 0 <= u < |fl| && fl[u] == x;
      if u < t {
        assert r[u] == x;
      } else {
        assert r[u - 1] == x;
      }
    }
  }

  lemma ElemsCons(b: nat, fl: seq<nat>)
    requires NoDup(fl) && b !in fl
    ensures Elems([b] + fl) == {b} + Elems(fl)
    ensures NoDup([b] + fl)
  {
    var r := [b] + fl;
    forall x | x in Elems(fl)
      ensures x in Elems(r)
    {
      var u :| 0 <= u < |fl| && fl[u] == x;
      assert r[u + 1] == x;
    }
  }

  // ---------------------------------------------------------------------
  // The heap invariant

  /** Block b lies in m and carries its tag in its first and in its last word. */
  ghost predicate TagsAt(m: seq<int>, b: Block) {
    0 < b.words && End(b) <= |m| && m[b.start] == Tag(b) && m[End(b) - 1] == Tag(b)
  }

  /** Every block carries its tags. */
  ghost predicate TagsAgree(m: seq<int>, bs: seq<Block>) {
    forall i {:trigger TagsAt(m, bs[i])} :: 0 <= i < |bs| ==> TagsAt(m, bs[i])
  }

  /** The `next` word of each free-list node points at the following node. */
  ghost predicate LinksAgree(m: seq<int>, fl: seq<nat>) {
    forall k {:trigger Succ(fl, k)} :: 0 <= k < |fl| ==> fl[k] + 1 < |m| && m[fl[k] + 1] == Succ(fl, k)
  }

  /** The whole allocator state: the words `m`, free_list_head `head`, the
      blocks `bs` in address order and the free list `fl` in list order. */
  ghost predicate ValidHeap(m: seq<int>, head: int, bs: seq<Block>, fl: seq<nat>) {
    && |m| >= 2
    && Tiled(bs, 1, |m| - 1)
    && IsAllocated(m[|m| - 1])
    && TagsAgree(m, bs)
    && NoDup(fl)
    && Elems(fl) == FreeStarts(bs)
    && head == HeadOf(fl)
    && LinksAgree(m, fl)
  }

  /** Word x lies strictly inside a block that is in use: it is neither a
      header nor a footer. */
  ghost predicate InPayload(bs: seq<Block>, i: nat, x: int)
    requires i < |bs|
  {
    bs[i].inUse && bs[i].start < x < End(bs[i]) - 1
  }

  /** A word of a live payload is no metadata: not a header or footer of any
      block, not the `next` word of any free-list node, not the sentinel and
      not the null word. */
  lemma PayloadIsolated(m: seq<int>, head: int, bs: seq<Block>, fl: seq<nat>, i: nat, x: int)
    requires ValidHeap(m, head, bs, fl) && i < |bs| && InPayload(bs, i, x)
    ensures 0 < x < |m| - 1
    ensures forall g :: 0 <= g < |bs| ==> x != bs[g].start && x != End(bs[g]) - 1
    ensures forall k :: 0 <= k < |fl| ==> x != fl[k] + 1
  {
    forall g | 0 <= g < |bs| && g != i
      ensures x != bs[g].start && x != End(bs[g]) - 1
    {
      TiledDisjoint(bs, 1, |m| - 1, g, i);
    }
    forall k | 0 <= k < |fl|
      ensures x != fl[k] + 1
    {
      assert fl[k] in Elems(fl);
      var g := FreeBlockOf(bs, 1, |m| - 1, fl[k]);
      TiledDisjoint(bs, 1, |m| - 1, g, i);
    }
  }

  /** Two blocks in use have disjoint payloads, hence distinct payload addresses. */
  lemma PayloadsDisjoint(m: seq<int>, head: int, bs: seq<Block>, fl: seq<nat>, i: nat, j: nat)
    requires ValidHeap(m, head, bs, fl) && i < |bs| && j < |bs| && i != j
    ensures bs[i].start + 1 != bs[j].start + 1
    ensures forall x :: InPayload(bs, i, x) ==> !InPayload(bs, j, x)
  {
    TiledDisjoint(bs, 1, |m| - 1, i, j);
  }

  /** Writes confined to two adjacent free blocks and one word L inside a
      free block keep every live payload. */
  lemma MergeKeepsPayloads(bs: seq<Block>, lo: nat, hi: nat, m: seq<int>, m': seq<int>, i: nat, L: int, pg: nat)
    requires Tiled(bs, lo, hi) && hi <= |m| && |m'| == |m| && i + 1 < |bs| && !bs[i].inUse && !bs[i + 1].inUse
    requires 0 <= L ==> pg < |bs| && !bs[pg].inUse && bs[pg].start <= L < End(bs[pg])
    requires forall x :: 0 <= x < |m| && x != L && !(bs[i].start <= x < End(bs[i + 1])) ==> m'[x] == m[x]
    ensures forall g, x :: 0 <= g < |bs| && InPayload(bs, g, x) ==> 0 <= x < |m| && m'[x] == m[x]
  {
    assert End(bs[i]) == bs[i + 1].start;
    PayloadsKept(bs, lo, hi, m, m', i, i + 1, L, pg);
  }

  /** Stores that stay inside the blocks j1 and j2, plus at most one word L
      inside the free block pg (none when L < 0), leave every payload word of
      every other block as it was. */
  lemma PayloadsKept(bs: seq<Block>, lo: nat, hi: nat, m: seq<int>, m': seq<int>, j1: nat, j2: nat, L: int, pg: nat)
    requires Tiled(bs, lo, hi) && hi <= |m| && |m'| == |m| && j1 < |bs| && j2 < |bs|
    requires 0 <= L ==> pg < |bs| && !bs[pg].inUse && bs[pg].start <= L < End(bs[pg])
    requires forall x :: 0 <= x < |m| && !(bs[j1].start <= x < End(bs[j1])) && !(bs[j2].start <= x < End(bs[j2])) && x != L ==>
      m'[x] == m[x]
    ensures forall i, x :: 0 <= i < |bs| && i != j1 && i != j2 && InPayload(bs, i, x) ==> 0 <= x < |m| && m'[x] == m[x]
  {
    forall i, x | 0 <= i < |bs| && i != j1 && i != j2 && InPayload(bs, i, x)
      ensures 0 <= x < |m| && m'[x] == m[x]
    {
      TiledDisjoint(bs, lo, hi, i, j1);
      TiledDisjoint(bs, lo, hi, i, j2);
      if 0 <= L {
        TiledDisjoint(bs, lo, hi, i, pg);
      }
    }
  }

  // ---------------------------------------------------------------------
  // The memory writes of mymalloc and myfree, and what they preserve

  /** A store of the value `val` into word `at`. */
  datatype Write = Write(at: nat, val: int)

  /** The words after the stores ws, performed in order; a store past the
      end changes nothing. */
  function Apply(m: seq<int>, ws: seq<Write>): (r: seq<int>)
    ensures |r| == |m|
    decreases |ws|
  {
    if ws == [] then m
    else Apply(if ws[0].at < |m| then m[ws[0].at := ws[0].val] else m, ws[1..])
  }

  /** A word that no store names keeps its value. */
  lemma {:induction false} ApplyFrame(m: seq<int>, ws: seq<Write>, x: nat)
    requires x < |m| && forall t :: 0 <= t < |ws| ==> ws[t].at != x
    ensures Apply(m, ws)[x] == m[x]
    decreases |ws|
  {
    if ws != [] {
      var m' := if ws[0].at < |m| then m[ws[0].at := ws[0].val] else m;
      ApplyFrame(m', ws[1..], x);
    }
  }

  /** A word holds the value of the last store that names it. */
  lemma {:induction false} ApplyLast(m: seq<int>, ws: seq<Write>, i: nat)
    requires i < |ws| && ws[i].at < |m|
    requires forall t :: i < t < |ws| ==> ws[t].at != ws[i].at
    ensures Apply(m, ws)[ws[i].at] == ws[i].val
    decreases |ws|
  {
    var m' := if ws[0].at < |m| then m[ws[0].at := ws[0].val] else m;
    if i == 0 {
      ApplyFrame(m', ws[1..], ws[0].at);
    } else {
      ApplyLast(m', ws[1..], i - 1);
    }
  }

  /** The stores of mymalloc's split, in the order of mymalloc/mymalloc.c:43-51:
      the header and footer of the new free block at s + n, its `next` copied
      from the chosen block's, then the header and footer of the chosen block
      of n words. */
  function SplitStores(m: seq<int>, s: nat, w: nat, n: nat): seq<Write>
    requires 3 <= n && n + 3 <= w && s + w <= |m|
  {
    [Write(s + n, 8 * (w - n)), Write(s + w - 1, 8 * (w - n)), Write(s + n + 1, m[s + 1]),
     Write(s, 8 * n + 1), Write(s + n - 1, 8 * n + 1)]
  }

  /** The words after mymalloc's split of the chosen block (s, w words). */
  function SplitWrites(m: seq<int>, s: nat, w: nat, n: nat): seq<int>
    requires 3 <= n && n + 3 <= w && s + w <= |m|
  {
    Apply(m, SplitStores(m, s, w, n))
  }

  /** mymalloc's whole-block allocation: both tags of the chosen block get the flag. */
  function AllocWrites(m: seq<int>, s: nat, w: nat): seq<int>
    requires 1 <= w && s + w <= |m|
  {
    m[s := 8 * w + 1][s + w - 1 := 8 * w + 1]
  }

  /** myfree's marking of a block (s, w words) as free: both tags lose the
      flag (mymalloc/mymalloc.c:99-100, and 123-124 for a merged block). */
  function FreeWrites(m: seq<int>, s: nat, w: nat): seq<int>
    requires 1 <= w && s + w <= |m|
  {
    m[s := 8 * w][s + w - 1 := 8 * w]
  }

  /** myfree's tag stores change no word outside the block. */
  lemma FreeWritesFrame(m: seq<int>, s: nat, w: nat)
    requires 1 <= w && s + w <= |m|
    ensures var r := FreeWrites(m, s, w);
      |r| == |m| && forall x :: 0 <= x < |m| && !(s <= x < s + w) ==> r[x] == m[x]
  {
  }

  /** Making node k's predecessor (or the head) point at x instead. */
  function Relink(m: seq<int>, fl: seq<nat>, k: nat, x: int): seq<int>
    requires k < |fl| && (k > 0 ==> fl[k - 1] + 1 < |m|)
  {
    if k == 0 then m else m[fl[k - 1] + 1 := x]
  }

  /** The same store seen from the scan: x goes into the link word of the
      node `prev`, and nowhere when `prev` is null (then the head takes x). */
  function LinkFrom(m: seq<int>, prev: nat, x: int): seq<int>
    requires prev != NULL ==> prev + 1 < |m|
  {
    if prev == NULL then m else m[prev + 1 := x]
  }

  function RelinkHead(head: int, k: nat, x: int): int {
    if k == 0 then x else head
  }

  /** The `next` word of a free-list node lies strictly inside its own block. */
  lemma LinkWordInside(m: seq<int>, head: int, bs: seq<Block>, fl: seq<nat>, k: nat) returns (g: nat)
    requires ValidHeap(m, head, bs, fl) && k < |fl|
    ensures g < |bs| && bs[g].start == fl[k] && !bs[g].inUse && fl[k] + 1 < End(bs[g]) - 1
    ensures forall i :: 0 <= i < |bs| && i != g ==> End(bs[i]) <= fl[k] || End(bs[g]) <= bs[i].start
  {
    assert fl[k] in Elems(fl);
    g := FreeBlockOf(bs, 1, |m| - 1, fl[k]);
  }

  /** The link word of node k's predecessor, when there is one, lies strictly
      inside a block other than node k's. */
  lemma PredLinkInside(m: seq<int>, head: int, bs: seq<Block>, fl: seq<nat>, k: nat, j: nat) returns (g: nat)
    requires ValidHeap(m, head, bs, fl) && k < |fl| && j < |bs| && bs[j].start == fl[k]
    ensures k > 0 ==> g < |bs| && g != j && bs[g].start < fl[k - 1] + 1 < End(bs[g]) - 1
    ensures k > 0 ==> !bs[g].inUse
  {
    g := 0;
    if k > 0 {
      assert fl[k - 1] != fl[k];
      g := LinkWordInside(m, head, bs, fl, k - 1);
    }
  }

  /** The link word of every free block other than block j lies outside block j. */
  lemma LinksOutside(m: seq<int>, head: int, bs: seq<Block>, fl: seq<nat>, j: nat)
    requires ValidHeap(m, head, bs, fl) && j < |bs|
    ensures forall u :: 0 <= u < |fl| && fl[u] != bs[j].start ==> fl[u] + 1 < bs[j].start || End(bs[j]) <= fl[u]
  {
    forall u | 0 <= u < |fl| && fl[u] != bs[j].start
      ensures fl[u] + 1 < bs[j].start || End(bs[j]) <= fl[u]
    {
      var g := LinkWordInside(m, head, bs, fl, u);
    }
  }

  /** What LinksAgree says about the k-th node. */
  lemma LinkAt(m: seq<int>, fl: seq<nat>, k: nat)
    requires LinksAgree(m, fl) && k < |fl|
    ensures fl[k] + 1 < |m| && m[fl[k] + 1] == Succ(fl, k)
  {
  }

  /** A write strictly inside some block touches no tag. */
  lemma TagsWriteInterior(m: seq<int>, bs: seq<Block>, lo: nat, hi: nat, g: nat, p: nat, v: int)
    requires Tiled(bs, lo, hi) && TagsAgree(m, bs) && g < |bs| && bs[g].start < p < End(bs[g]) - 1
    ensures p < |m| && TagsAgree(m[p := v], bs)
  {
    assert TagsAt(m, bs[g]);
    forall i | 0 <= i < |bs|
      ensures TagsAt(m[p := v], bs[i])
    {
      assert TagsAt(m, bs[i]);
      if i != g {
        TiledDisjoint(bs, lo, hi, i, g);
      }
    }
  }

  /** TagsAgree from the tags of block i and of every other block. */
  lemma TagsAgreeExcept(m: seq<int>, bs: seq<Block>, i: nat)
    requires i < |bs| && TagsAt(m, bs[i])
    requires forall g :: 0 <= g < |bs| && g != i ==> TagsAt(m, bs[g])
    ensures TagsAgree(m, bs)
  {
  }

  /** Redirecting the predecessor's link, a word strictly inside block g,
      touches no tag. */
  lemma RelinkTags(m: seq<int>, bs: seq<Block>, lo: nat, hi: nat, fl: seq<nat>, k: nat, x: int, g: nat)
    requires Tiled(bs, lo, hi) && TagsAgree(m, bs) && k < |fl|
    requires k > 0 ==> g < |bs| && bs[g].start < fl[k - 1] + 1 < End(bs[g]) - 1
    requires hi < |m|
    ensures k > 0 ==> fl[k - 1] + 1 < |m|
    ensures var m' := Relink(m, fl, k, x);
      |m'| == |m| && m'[hi] == m[hi] && TagsAgree(m', bs)
  {
    if k > 0 {
      TagsWriteInterior(m, bs, lo, hi, g, fl[k - 1] + 1, x);
      assert Relink(m, fl, k, x) == m[fl[k - 1] + 1 := x];
    }
  }

  /** The words the split writes of mymalloc change, and their new values. */
  lemma SplitWritesAt(m: seq<int>, s: nat, w: nat, n: nat)
    requires 3 <= n && n + 3 <= w && s + w <= |m|
    ensures var m1 := SplitWrites(m, s, w, n);
      && |m1| == |m|
      && m1[s] == 8 * n + 1 && m1[s + n - 1] == 8 * n + 1
      && m1[s + n] == 8 * (w - n) && m1[s + w - 1] == 8 * (w - n)
      && m1[s + n + 1] == m[s + 1]
      && (forall x :: 0 <= x < |m| && x != s && x != s + n - 1 && x != s + n && x != s + n + 1 && x != s + w - 1 ==> m1[x] == m[x])
  {
    var ws := SplitStores(m, s, w, n);
    ApplyLast(m, ws, 0);
    ApplyLast(m, ws, 1);
    ApplyLast(m, ws, 2);
    ApplyLast(m, ws, 3);
    ApplyLast(m, ws, 4);
    forall x | 0 <= x < |m| && x != s && x != s + n - 1 && x != s + n && x != s + n + 1 && x != s + w - 1
      ensures Apply(m, ws)[x] == m[x]
    {
      ApplyFrame(m, ws, x);
    }
  }

  /** When the words outside [a, e) are unchanged, so are the tags of the
      blocks outside it. */
  lemma TagsFrame(m: seq<int>, m': seq<int>, bs: seq<Block>, a: nat, e: nat)
    requires TagsAgree(m, bs) && |m'| == |m|
    requires forall x :: 0 <= x < |m| && (x < a || e <= x) ==> m'[x] == m[x]
    ensures forall i :: 0 <= i < |bs| && (End(bs[i]) <= a || e <= bs[i].start) ==> TagsAt(m', bs[i])
  {
    forall i | 0 <= i < |bs| && (End(bs[i]) <= a || e <= bs[i].start)
      ensures TagsAt(m', bs[i])
    {
      assert TagsAt(m, bs[i]);
    }
  }

  /** Every block other than block j lies wholly before or wholly after it. */
  lemma OthersApart(bs: seq<Block>, lo: nat, hi: nat, j: nat)
    requires Tiled(bs, lo, hi) && j < |bs|
    ensures forall i :: 0 <= i < |bs| && i != j ==> End(bs[i]) <= bs[j].start || End(bs[j]) <= bs[i].start
  {
    forall i | 0 <= i < |bs| && i != j
      ensures End(bs[i]) <= bs[j].start || End(bs[j]) <= bs[i].start
    {
      TiledDisjoint(bs, lo, hi, i, j);
    }
  }

  /** The tags after the split writes of mymalloc. */
  lemma SplitTags(m: seq<int>, bs: seq<Block>, lo: nat, hi: nat, j: nat, n: nat)
    requires Tiled(bs, lo, hi) && TagsAgree(m, bs) && j < |bs| && 3 <= n && n + 3 <= bs[j].words
    ensures End(bs[j]) <= |m|
    ensures TagsAgree(SplitWrites(m, bs[j].start, bs[j].words, n), SplitBlocks(bs, j, n))
  {
    assert TagsAt(m, bs[j]);
    var s, w := bs[j].start, bs[j].words;
    var m1 := SplitWrites(m, s, w, n);
    var r := SplitBlocks(bs, j, n);
    SplitIndex(bs, j, n);
    SplitWritesAt(m, s, w, n);
    TagsFrame(m, m1, bs, s, s + w);
    OthersApart(bs, lo, hi, j);
    assert TagsAt(m1, r[j]) && TagsAt(m1, r[j + 1]);
    forall i | 0 <= i < |r| && i != j && i != j + 1
      ensures TagsAt(m1, r[i])
    {
      if i < j {
        assert r[i] == bs[i];
      } else {
        assert r[i] == bs[i - 1];
      }
    }
  }

  /** The link word of node u after the split writes and the relinking. */
  lemma SplitLinkOne(m: seq<int>, fl: seq<nat>, k: nat, w: nat, n: nat, u: nat)
    requires LinksAgree(m, fl) && NoDup(fl) && k < |fl| && 3 <= n && n + 3 <= w && fl[k] + w <= |m|
    requires forall u :: 0 <= u < |fl| && u != k ==> fl[u] + 1 < fl[k] || fl[k] + w <= fl[u]
    requires k > 0 ==> fl[k - 1] + 1 < |m|
    requires u < |fl|
    ensures var m2 := Relink(SplitWrites(m, fl[k], w, n), fl, k, fl[k] + n);
      var r := fl[k := fl[k] + n];
      r[u] + 1 < |m2| && m2[r[u] + 1] == Succ(r, u)
  {
    var s := fl[k];
    var m1 := SplitWrites(m, s, w, n);
    SplitWritesAt(m, s, w, n);
    LinkAt(m, fl, u);
    if k > 0 {
      assert Relink(m1, fl, k, s + n) == m1[fl[k - 1] + 1 := s + n];
      if u != k - 1 && u != k {
        assert fl[u] != fl[k - 1];
      }
    }
  }

  /** The links after the split writes of mymalloc and the relinking of the
      predecessor, given that no other link word lies in the chosen block. */
  lemma SplitLinks(m: seq<int>, fl: seq<nat>, k: nat, w: nat, n: nat)
    requires LinksAgree(m, fl) && NoDup(fl) && k < |fl| && 3 <= n && n + 3 <= w && fl[k] + w <= |m|
    requires forall u :: 0 <= u < |fl| && u != k ==> fl[u] + 1 < fl[k] || fl[k] + w <= fl[u]
    ensures k > 0 ==> fl[k - 1] + 1 < |m|
    ensures LinksAgree(Relink(SplitWrites(m, fl[k], w, n), fl, k, fl[k] + n), fl[k := fl[k] + n])
  {
    if k > 0 {
      LinkAt(m, fl, k - 1);
    }
    var m2 := Relink(SplitWrites(m, fl[k], w, n), fl, k, fl[k] + n);
    var r := fl[k := fl[k] + n];
    forall u | 0 <= u < |r|
      ensures r[u] + 1 < |m2| && m2[r[u] + 1] == Succ(r, u)
    {
      SplitLinkOne(m, fl, k, w, n, u);
    }
  }

  /** Two writes inside [a, e) leave the tags of the blocks outside it alone. */
  lemma TagsFrame2(m: seq<int>, bs: seq<Block>, a: nat, e: nat, p1: nat, v1: int, p2: nat, v2: int)
    requires TagsAgree(m, bs) && a <= p1 < e && a <= p2 < e && e <= |m|
    ensures forall i :: 0 <= i < |bs| && (End(bs[i]) <= a || e <= bs[i].start) ==>
      TagsAt(m[p1 := v1][p2 := v2], bs[i])
  {
    var m' := m[p1 := v1][p2 := v2];
    forall i | 0 <= i < |bs| && (End(bs[i]) <= a || e <= bs[i].start)
      ensures TagsAt(m', bs[i])
    {
      assert TagsAt(m, bs[i]);
    }
  }

  /** The link word of every free-list node other than node k, where node k
      is block j, lies outside block j. */
  lemma LinksOutsideExcept(m: seq<int>, head: int, bs: seq<Block>, fl: seq<nat>, j: nat, k: nat)
    requires ValidHeap(m, head, bs, fl) && j < |bs| && k < |fl| && fl[k] == bs[j].start
    ensures forall u :: 0 <= u < |fl| && u != k ==> fl[u] + 1 < bs[j].start || End(bs[j]) <= fl[u]
  {
    forall u | 0 <= u < |fl| && u != k
      ensures fl[u] + 1 < bs[j].start || End(bs[j]) <= fl[u]
    {
      assert fl[u] != fl[k];
      var g := LinkWordInside(m, head, bs, fl, u);
    }
  }

  /** The link word of every free-list node lies outside a block in use. */
  lemma LinksOutsideUsed(m: seq<int>, head: int, bs: seq<Block>, fl: seq<nat>, i: nat)
    requires ValidHeap(m, head, bs, fl) && i < |bs| && bs[i].inUse
    ensures forall u :: 0 <= u < |fl| ==> fl[u] + 1 < bs[i].start || End(bs[i]) <= fl[u]
  {
    forall u | 0 <= u < |fl|
      ensures fl[u] + 1 < bs[i].start || End(bs[i]) <= fl[u]
    {
      var g := LinkWordInside(m, head, bs, fl, u);
    }
  }

  /** The tags after mymalloc hands out a whole block. */
  lemma WholeTags(m: seq<int>, bs: seq<Block>, lo: nat, hi: nat, j: nat)
    requires Tiled(bs, lo, hi) && TagsAgree(m, bs) && j < |bs|
    ensures End(bs[j]) <= |m|
    ensures TagsAgree(AllocWrites(m, bs[j].start, bs[j].words), SetInUse(bs, j, true))
  {
    var s, w := bs[j].start, bs[j].words;
    assert TagsAt(m, bs[j]);
    TagsFrame2(m, bs, s, s + w, s, 8 * w + 1, s + w - 1, 8 * w + 1);
    OthersApart(bs, lo, hi, j);
    var m1 := AllocWrites(m, s, w);
    var r := SetInUse(bs, j, true);
    forall i | 0 <= i < |r|
      ensures TagsAt(m1, r[i])
    {
      if i != j {
        assert r[i] == bs[i];
      }
    }
  }

  /** The positions of a free list with one node removed. */
  lemma RemoveIndex(fl: seq<nat>, t: nat)
    requires t < |fl|
    ensures |RemoveAt(fl, t)| == |fl| - 1
    ensures forall u :: 0 <= u < t ==> RemoveAt(fl, t)[u] == fl[u]
    ensures forall u :: t <= u < |fl| - 1 ==> RemoveAt(fl, t)[u] == fl[u + 1]
  {
  }

  /** The links after mymalloc unlinks a whole block. */
  lemma WholeLinks(m: seq<int>, fl: seq<nat>, k: nat, w: nat)
    requires LinksAgree(m, fl) && NoDup(fl) && k < |fl| && 3 <= w && fl[k] + w <= |m|
    requires forall u :: 0 <= u < |fl| && u != k ==> fl[u] + 1 < fl[k] || fl[k] + w <= fl[u]
    ensures k > 0 ==> fl[k - 1] + 1 < |m|
    ensures fl[k] + 1 < |m| && AllocWrites(m, fl[k], w)[fl[k] + 1] == Succ(fl, k)
    ensures LinksAgree(Relink(AllocWrites(m, fl[k], w), fl, k, Succ(fl, k)), RemoveAt(fl, k))
  {
    var s := fl[k];
    LinkAt(m, fl, k);
    if k > 0 {
      LinkAt(m, fl, k - 1);
    }
    var m1 := AllocWrites(m, s, w);
    var m2 := Relink(m1, fl, k, Succ(fl, k));
    var r := RemoveAt(fl, k);
    RemoveIndex(fl, k);
    forall u | 0 <= u < |r|
      ensures r[u] + 1 < |m2| && m2[r[u] + 1] == Succ(r, u)
    {
      var v := if u < k then u else u + 1;
      assert r[u] == fl[v];
      LinkAt(m, fl, v);
      if k > 0 && v != k - 1 {
        assert fl[v] != fl[k - 1];
      }
    }
  }

  /** The tags after myfree clears the flag of block i and writes its link. */
  lemma ReleaseTags(m: seq<int>, bs: seq<Block>, lo: nat, hi: nat, i: nat, v: int)
    requires Tiled(bs, lo, hi) && TagsAgree(m, bs) && i < |bs|
    ensures 3 <= bs[i].words && End(bs[i]) <= |m|
    ensures var b, w := bs[i].start, bs[i].words;
      TagsAgree(FreeWrites(m, b, w)[b + 1 := v], SetInUse(bs, i, false))
  {
    var b, w := bs[i].start, bs[i].words;
    ReleaseFreeTags(m, bs, lo, hi, i);
    var m1 := FreeWrites(m, b, w);
    var r := SetInUse(bs, i, false);
    SetInUseTiled(bs, lo, hi, i, false);
    assert r[i].start == b && End(r[i]) == b + w;
    TagsWriteInterior(m1, r, lo, hi, i, b + 1, v);
  }

  /** The tags after myfree clears the flag of block i. */
  lemma ReleaseFreeTags(m: seq<int>, bs: seq<Block>, lo: nat, hi: nat, i: nat)
    requires Tiled(bs, lo, hi) && TagsAgree(m, bs) && i < |bs|
    ensures 3 <= bs[i].words && End(bs[i]) <= |m|
    ensures TagsAgree(FreeWrites(m, bs[i].start, bs[i].words), SetInUse(bs, i, false))
  {
    var b, w := bs[i].start, bs[i].words;
    assert TagsAt(m, bs[i]);
    TagsFrame2(m, bs, b, b + w, b, 8 * w, b + w - 1, 8 * w);
    OthersApart(bs, lo, hi, i);
    var m1 := FreeWrites(m, b, w);
    var r := SetInUse(bs, i, false);
    forall g | 0 <= g < |r|
      ensures TagsAt(m1, r[g])
    {
      if g != i {
        assert r[g] == bs[g];
      }
    }
  }

  /** The links after myfree pushes block b (w words) at the head of the list. */
  lemma ReleaseLinks(m: seq<int>, head: int, fl: seq<nat>, b: nat, w: nat)
    requires LinksAgree(m, fl) && head == HeadOf(fl) && 3 <= w && b + w <= |m|
    requires forall u :: 0 <= u < |fl| ==> fl[u] + 1 < b || b + w <= fl[u]
    ensures LinksAgree(FreeWrites(m, b, w)[b + 1 := head], [b] + fl)
  {
    var r := [b] + fl;
    forall u | 0 <= u < |r|
      ensures r[u] + 1 < |FreeWrites(m, b, w)[b + 1 := head]|
      ensures FreeWrites(m, b, w)[b + 1 := head][r[u] + 1] == Succ(r, u)
    {
      if u > 0 {
        assert r[u] == fl[u - 1];
        LinkAt(m, fl, u - 1);
      }
    }
  }

  /** The blocks of a merge other than the merged one are blocks of bs that
      lie outside the merged range, so they keep whatever tags they had. */
  lemma MergeOthers(m: seq<int>, bs: seq<Block>, lo: nat, hi: nat, i: nat, a: nat, e: nat)
    requires Tiled(bs, lo, hi) && i + 1 < |bs| && a == bs[i].start && e == End(bs[i + 1])
    requires forall g :: 0 <= g < |bs| && (End(bs[g]) <= a || e <= bs[g].start) ==> TagsAt(m, bs[g])
    ensures forall g :: 0 <= g < |MergeBlocks(bs, i)| && g != i ==> TagsAt(m, MergeBlocks(bs, i)[g])
  {
    var r := MergeBlocks(bs, i);
    MergeIndex(bs, i);
    forall g | 0 <= g < |r| && g != i
      ensures TagsAt(m, r[g])
    {
      if g < i {
        TiledOrder(bs, lo, hi, g, i);
        assert r[g] == bs[g];
      } else {
        TiledOrder(bs, lo, hi, i + 1, g + 1);
        assert r[g] == bs[g + 1];
      }
    }
  }

  /** The tags after myfree's forward merge of blocks i and i + 1. */
  lemma MergeTags(m: seq<int>, bs: seq<Block>, lo: nat, hi: nat, i: nat)
    requires Tiled(bs, lo, hi) && TagsAgree(m, bs) && i + 1 < |bs|
    ensures bs[i].start + bs[i].words + bs[i + 1].words <= |m|
    ensures var b, w := bs[i].start, bs[i].words + bs[i + 1].words;
      TagsAgree(FreeWrites(m, b, w), MergeBlocks(bs, i))
  {
    var b, w := bs[i].start, bs[i].words + bs[i + 1].words;
    var m1 := MergeTagsOthers(m, bs, lo, hi, i);
    var r := MergeBlocks(bs, i);
    MergeIndex(bs, i);
    assert TagsAt(m1, r[i]);
    TagsAgreeExcept(m1, r, i);
  }

  /** The blocks other than the merged one keep their tags through the
      merge's two stores. */
  lemma MergeTagsOthers(m: seq<int>, bs: seq<Block>, lo: nat, hi: nat, i: nat) returns (m1: seq<int>)
    requires Tiled(bs, lo, hi) && TagsAgree(m, bs) && i + 1 < |bs|
    ensures bs[i].start + bs[i].words + bs[i + 1].words <= |m|
    ensures m1 == FreeWrites(m, bs[i].start, bs[i].words + bs[i + 1].words)
    ensures forall g :: 0 <= g < |MergeBlocks(bs, i)| && g != i ==> TagsAt(m1, MergeBlocks(bs, i)[g])
  {
    var b, w := bs[i].start, bs[i].words + bs[i + 1].words;
    assert TagsAt(m, bs[i]) && TagsAt(m, bs[i + 1]);
    assert bs[i + 1].start == End(bs[i]);
    TagsFrame2(m, bs, b, b + w, b, 8 * w, b + w - 1, 8 * w);
    m1 := FreeWrites(m, b, w);
    MergeOthers(m1, bs, lo, hi, i, b, b + w);
  }

  /** The links after myfree unlinks node t (the block after the head block b)
      and the merged block of w words gets its tags. */
  lemma MergeLinks(m: seq<int>, fl: seq<nat>, t: nat, w: nat)
    requires LinksAgree(m, fl) && NoDup(fl) && 0 < t < |fl| && 3 <= w && fl[0] + w <= |m|
    requires forall u :: 0 <= u < |fl| && u != 0 && u != t ==> fl[u] + 1 < fl[0] || fl[0] + w <= fl[u]
    ensures fl[t - 1] + 1 < |m| && fl[t] + 1 < |m|
    ensures var b := fl[0];
      LinksAgree(FreeWrites(m[fl[t - 1] + 1 := m[fl[t] + 1]], b, w), RemoveAt(fl, t))
  {
    var b := fl[0];
    LinkAt(m, fl, t);
    LinkAt(m, fl, t - 1);
    var m1 := m[fl[t - 1] + 1 := m[fl[t] + 1]];
    var m2 := FreeWrites(m1, b, w);
    var r := RemoveAt(fl, t);
    RemoveIndex(fl, t);
    forall u | 0 <= u < |r|
      ensures r[u] + 1 < |m2| && m2[r[u] + 1] == Succ(r, u)
    {
      var v := if u < t then u else u + 1;
      assert r[u] == fl[v];
      LinkAt(m, fl, v);
      if v != t - 1 {
        assert fl[v] != fl[t - 1];
      }
    }
  }

  /** The block and list structure after a split: the free node at position
      k is replaced by the remainder block at s + n. */
  lemma SplitStructure(bs: seq<Block>, fl: seq<nat>, lo: nat, hi: nat, k: nat, j: nat, n: nat)
    requires Tiled(bs, lo, hi) && NoDup(fl) && Elems(fl) == FreeStarts(bs)
    requires k < |fl| && j < |bs| && bs[j].start == fl[k] && !bs[j].inUse
    requires 3 <= n && n + 3 <= bs[j].words
    ensures var fl' := fl[k := fl[k] + n];
      var bs' := SplitBlocks(bs, j, n);
      Tiled(bs', lo, hi) && NoDup(fl') && Elems(fl') == FreeStarts(bs')
  {
    var s := fl[k];
    SplitTiled(bs, lo, hi, j, n);
    assert s + n !in fl by {
      if s + n in fl {
        var t :| 0 <= t < |fl| && fl[t] == s + n;
        assert fl[t] in Elems(fl);
        var g := FreeBlockOf(bs, lo, hi, s + n);
        if g != j {
          TiledDisjoint(bs, lo, hi, g, j);
        }
      }
    }
    ElemsReplace(fl, k, s + n);
    FreeStartsSplit(bs, lo, hi, j, n);
  }

  /** The words after a split: tags of the new block sequence and links of the
      new list, given that the link words of the other free blocks lie outside
      the chosen block j and that the predecessor's link word lies strictly
      inside another block pg. */
  lemma SplitMemory(m: seq<int>, bs: seq<Block>, fl: seq<nat>, lo: nat, hi: nat, k: nat, j: nat, n: nat, pg: nat)
    requires Tiled(bs, lo, hi) && TagsAgree(m, bs) && LinksAgree(m, fl) && NoDup(fl)
    requires k < |fl| && j < |bs| && bs[j].start == fl[k] && 3 <= n && n + 3 <= bs[j].words
    requires forall u :: 0 <= u < |fl| && u != k ==> fl[u] + 1 < fl[k] || End(bs[j]) <= fl[u]
    requires k > 0 ==> pg < |bs| && pg != j && bs[pg].start < fl[k - 1] + 1 < End(bs[pg]) - 1
    requires hi < |m|
    ensures k > 0 ==> fl[k - 1] + 1 < |m|
    ensures |Relink(SplitWrites(m, fl[k], bs[j].words, n), fl, k, fl[k] + n)| == |m|
    ensures Relink(SplitWrites(m, fl[k], bs[j].words, n), fl, k, fl[k] + n)[hi] == m[hi]
    ensures TagsAgree(Relink(SplitWrites(m, fl[k], bs[j].words, n), fl, k, fl[k] + n), SplitBlocks(bs, j, n))
    ensures LinksAgree(Relink(SplitWrites(m, fl[k], bs[j].words, n), fl, k, fl[k] + n), fl[k := fl[k] + n])
  {
    var s, w := fl[k], bs[j].words;
    var bs' := SplitBlocks(bs, j, n);
    var m1 := SplitWrites(m, s, w, n);
    assert TagsAt(m, bs[j]);
    SplitWritesAt(m, s, w, n);
    assert m1[hi] == m[hi];
    SplitLinks(m, fl, k, w, n);
    SplitTags(m, bs, lo, hi, j, n);
    SplitTiled(bs, lo, hi, j, n);
    SplitKeeps(bs, j, n, pg, k > 0);
    RelinkTags(m1, bs', lo, hi, fl, k, s + n, if pg < j then pg else pg + 1);
  }

  /** A block other than the chosen one keeps its contents in a split, one
      place further on when it lies after the chosen block. */
  lemma SplitKeeps(bs: seq<Block>, j: nat, n: nat, g: nat, c: bool)
    requires j < |bs| && n <= bs[j].words && (c ==> g < |bs| && g != j)
    ensures c ==> var g' := if g < j then g else g + 1;
      g' < |SplitBlocks(bs, j, n)| && SplitBlocks(bs, j, n)[g'] == bs[g]
  {
    if c {
      SplitIndex(bs, j, n);
    }
  }

  /** The split case of mymalloc keeps the heap valid. */
  lemma MallocSplitValid(m: seq<int>, head: int, bs: seq<Block>, fl: seq<nat>, k: nat, j: nat, n: nat)
    requires ValidHeap(m, head, bs, fl)
    requires k < |fl| && j < |bs| && bs[j].start == fl[k] && !bs[j].inUse
    requires 3 <= n && n + 3 <= bs[j].words
    ensures k > 0 ==> fl[k - 1] + 1 < |m|
    ensures
      var s := fl[k];
      ValidHeap(Relink(SplitWrites(m, s, bs[j].words, n), fl, k, s + n),
                RelinkHead(head, k, s + n), SplitBlocks(bs, j, n), fl[k := s + n])
  {
    SplitWords(m, head, bs, fl, k, j, n);
    SplitStructure(bs, fl, 1, |m| - 1, k, j, n);
  }

  /** The words after mymalloc's split of node k (block j), in a valid heap. */
  lemma SplitWords(m: seq<int>, head: int, bs: seq<Block>, fl: seq<nat>, k: nat, j: nat, n: nat)
    requires ValidHeap(m, head, bs, fl)
    requires k < |fl| && j < |bs| && bs[j].start == fl[k] && !bs[j].inUse
    requires 3 <= n && n + 3 <= bs[j].words
    ensures k > 0 ==> fl[k - 1] + 1 < |m|
    ensures var m2 := Relink(SplitWrites(m, fl[k], bs[j].words, n), fl, k, fl[k] + n);
      && |m2| == |m| && IsAllocated(m2[|m2| - 1])
      && TagsAgree(m2, SplitBlocks(bs, j, n)) && LinksAgree(m2, fl[k := fl[k] + n])
  {
    var pg := PredLinkInside(m, head, bs, fl, k, j);
    LinksOutsideExcept(m, head, bs, fl, j, k);
    SplitMemory(m, bs, fl, 1, |m| - 1, k, j, n, pg);
  }

  /** The block and list structure after mymalloc hands out node k whole. */
  lemma WholeStructure(bs: seq<Block>, fl: seq<nat>, lo: nat, hi: nat, k: nat, j: nat)
    requires Tiled(bs, lo, hi) && NoDup(fl) && Elems(fl) == FreeStarts(bs)
    requires k < |fl| && j < |bs| && bs[j].start == fl[k] && !bs[j].inUse
    ensures Tiled(SetInUse(bs, j, true), lo, hi) && NoDup(RemoveAt(fl, k))
    ensures Elems(RemoveAt(fl, k)) == FreeStarts(SetInUse(bs, j, true))
    ensures HeadOf(RemoveAt(fl, k)) == RelinkHead(HeadOf(fl), k, Succ(fl, k))
  {
    SetInUseTiled(bs, lo, hi, j, true);
    ElemsRemove(fl, k);
    FreeStartsSetInUse(bs, lo, hi, j, true);
  }

  /** The words after mymalloc hands out node k (block j) whole. */
  lemma WholeMemory(m: seq<int>, bs: seq<Block>, fl: seq<nat>, lo: nat, hi: nat, k: nat, j: nat, pg: nat)
    requires Tiled(bs, lo, hi) && TagsAgree(m, bs) && LinksAgree(m, fl) && NoDup(fl)
    requires k < |fl| && j < |bs| && bs[j].start == fl[k]
    requires forall u :: 0 <= u < |fl| && u != k ==> fl[u] + 1 < fl[k] || End(bs[j]) <= fl[u]
    requires k > 0 ==> pg < |bs| && pg != j && bs[pg].start < fl[k - 1] + 1 < End(bs[pg]) - 1
    requires hi < |m|
    ensures k > 0 ==> fl[k - 1] + 1 < |m|
    ensures fl[k] + 1 < |m| && AllocWrites(m, fl[k], bs[j].words)[fl[k] + 1] == Succ(fl, k)
    ensures var m2 := Relink(AllocWrites(m, fl[k], bs[j].words), fl, k, Succ(fl, k));
      && |m2| == |m| && m2[hi] == m[hi]
      && TagsAgree(m2, SetInUse(bs, j, true)) && LinksAgree(m2, RemoveAt(fl, k))
  {
    var s, w := fl[k], bs[j].words;
    assert TagsAt(m, bs[j]);
    WholeLinks(m, fl, k, w);
    WholeTags(m, bs, lo, hi, j);
    var m1 := AllocWrites(m, s, w);
    assert m1[hi] == m[hi];
    SetInUseTiled(bs, lo, hi, j, true);
    var bs' := SetInUse(bs, j, true);
    if k > 0 {
      assert bs'[pg] == bs[pg];
    }
    RelinkTags(m1, bs', lo, hi, fl, k, Succ(fl, k), pg);
  }

  /** The no-split case of mymalloc keeps the heap valid. */
  lemma MallocWholeValid(m: seq<int>, head: int, bs: seq<Block>, fl: seq<nat>, k: nat, j: nat)
    requires ValidHeap(m, head, bs, fl)
    requires k < |fl| && j < |bs| && bs[j].start == fl[k] && !bs[j].inUse
    ensures k > 0 ==> fl[k - 1] + 1 < |m|
    ensures fl[k] + 1 < |m| && AllocWrites(m, fl[k], bs[j].words)[fl[k] + 1] == Succ(fl, k)
    ensures
      ValidHeap(Relink(AllocWrites(m, fl[k], bs[j].words), fl, k, Succ(fl, k)),
                RelinkHead(head, k, Succ(fl, k)), SetInUse(bs, j, true), RemoveAt(fl, k))
  {
    WholeWords(m, head, bs, fl, k, j);
    WholeStructure(bs, fl, 1, |m| - 1, k, j);
  }

  /** The words after mymalloc hands out node k (block j) whole, in a valid heap. */
  lemma WholeWords(m: seq<int>, head: int, bs: seq<Block>, fl: seq<nat>, k: nat, j: nat)
    requires ValidHeap(m, head, bs, fl)
    requires k < |fl| && j < |bs| && bs[j].start == fl[k] && !bs[j].inUse
    ensures k > 0 ==> fl[k - 1] + 1 < |m|
    ensures fl[k] + 1 < |m| && AllocWrites(m, fl[k], bs[j].words)[fl[k] + 1] == Succ(fl, k)
    ensures var m2 := Relink(AllocWrites(m, fl[k], bs[j].words), fl, k, Succ(fl, k));
      && |m2| == |m| && IsAllocated(m2[|m2| - 1])
      && TagsAgree(m2, SetInUse(bs, j, true)) && LinksAgree(m2, RemoveAt(fl, k))
  {
    var pg := PredLinkInside(m, head, bs, fl, k, j);
    LinksOutsideExcept(m, head, bs, fl, j, k);
    WholeMemory(m, bs, fl, 1, |m| - 1, k, j, pg);
  }

  /** The block and list structure after myfree releases block i. */
  lemma ReleaseStructure(bs: seq<Block>, fl: seq<nat>, lo: nat, hi: nat, i: nat)
    requires Tiled(bs, lo, hi) && NoDup(fl) && Elems(fl) == FreeStarts(bs) && i < |bs| && bs[i].inUse
    ensures Tiled(SetInUse(bs, i, false), lo, hi)
    ensures NoDup([bs[i].start] + fl) && Elems([bs[i].start] + fl) == FreeStarts(SetInUse(bs, i, false))
  {
    var b := bs[i].start;
    SetInUseTiled(bs, lo, hi, i, false);
    FreeStartsSetInUse(bs, lo, hi, i, false);
    assert b !in fl by {
      if b in fl {
        assert b in Elems(fl);
        var g := FreeBlockOf(bs, lo, hi, b);
        if g != i {
          TiledDisjoint(bs, lo, hi, g, i);
        }
      }
    }
    ElemsCons(b, fl);
  }

  /** The words after myfree releases block i and pushes it on the list. */
  lemma ReleaseMemory(m: seq<int>, head: int, bs: seq<Block>, fl: seq<nat>, lo: nat, hi: nat, i: nat)
    requires Tiled(bs, lo, hi) && TagsAgree(m, bs) && LinksAgree(m, fl) && head == HeadOf(fl) && i < |bs|
    requires forall u :: 0 <= u < |fl| ==> fl[u] + 1 < bs[i].start || End(bs[i]) <= fl[u]
    requires hi < |m|
    ensures 3 <= bs[i].words && End(bs[i]) <= |m|
    ensures var b, w := bs[i].start, bs[i].words;
      var m1 := FreeWrites(m, b, w)[b + 1 := head];
      && |m1| == |m| && m1[hi] == m[hi]
      && TagsAgree(m1, SetInUse(bs, i, false)) && LinksAgree(m1, [b] + fl)
  {
    ReleaseTags(m, bs, lo, hi, i, head);
    ReleaseLinks(m, head, fl, bs[i].start, bs[i].words);
  }

  /** myfree's first step: both tags of the block lose the flag and the block
      is pushed at the head of the free list (mymalloc/mymalloc.c:97-104). */
  lemma ReleaseValid(m: seq<int>, head: int, bs: seq<Block>, fl: seq<nat>, i: nat)
    requires ValidHeap(m, head, bs, fl) && i < |bs| && bs[i].inUse
    ensures 3 <= bs[i].words && End(bs[i]) <= |m|
    ensures
      var b, w := bs[i].start, bs[i].words;
      ValidHeap(FreeWrites(m, b, w)[b + 1 := head], b, SetInUse(bs, i, false), [b] + fl)
  {
    ReleaseWords(m, head, bs, fl, i);
    ReleaseStructure(bs, fl, 1, |m| - 1, i);
  }

  /** The words after myfree releases block i, in a valid heap. */
  lemma ReleaseWords(m: seq<int>, head: int, bs: seq<Block>, fl: seq<nat>, i: nat)
    requires ValidHeap(m, head, bs, fl) && i < |bs| && bs[i].inUse
    ensures 3 <= bs[i].words && End(bs[i]) <= |m|
    ensures var b, w := bs[i].start, bs[i].words;
      var m1 := FreeWrites(m, b, w)[b + 1 := head];
      && |m1| == |m| && IsAllocated(m1[|m1| - 1])
      && TagsAgree(m1, SetInUse(bs, i, false)) && LinksAgree(m1, [b] + fl)
  {
    LinksOutsideUsed(m, head, bs, fl, i);
    ReleaseMemory(m, head, bs, fl, 1, |m| - 1, i);
  }

  /** The block and list structure after myfree's forward merge. */
  lemma MergeStructure(bs: seq<Block>, fl: seq<nat>, lo: nat, hi: nat, i: nat, t: nat)
    requires Tiled(bs, lo, hi) && NoDup(fl) && Elems(fl) == FreeStarts(bs)
    requires i + 1 < |bs| && !bs[i].inUse && !bs[i + 1].inUse
    requires 0 < t < |fl| && fl[t] == bs[i + 1].start
    ensures Tiled(MergeBlocks(bs, i), lo, hi) && NoDup(RemoveAt(fl, t))
    ensures Elems(RemoveAt(fl, t)) == FreeStarts(MergeBlocks(bs, i))
    ensures HeadOf(RemoveAt(fl, t)) == HeadOf(fl)
  {
    MergeTiled(bs, lo, hi, i);
    ElemsRemove(fl, t);
    FreeStartsMerge(bs, lo, hi, i);
  }

  /** The words after myfree's forward merge: node t is unlinked through its
      predecessor, whose link word lies strictly inside block gq, and the
      merged block gets its tags. */
  lemma MergeMemory(m: seq<int>, bs: seq<Block>, fl: seq<nat>, lo: nat, hi: nat, i: nat, t: nat, gq: nat)
    requires Tiled(bs, lo, hi) && TagsAgree(m, bs) && LinksAgree(m, fl) && NoDup(fl)
    requires i + 1 < |bs| && 0 < t < |fl| && fl[0] == bs[i].start && fl[t] == bs[i + 1].start
    requires forall u :: 0 <= u < |fl| && u != 0 && u != t ==> fl[u] + 1 < fl[0] || End(bs[i + 1]) <= fl[u]
    requires gq < |bs| && bs[gq].start < fl[t - 1] + 1 < End(bs[gq]) - 1
    requires hi < |m|
    ensures fl[t - 1] + 1 < |m| && fl[t] + 1 < |m|
    ensures var b, w := bs[i].start, bs[i].words + bs[i + 1].words;
      var m3 := FreeWrites(m[fl[t - 1] + 1 := m[fl[t] + 1]], b, w);
      && |m3| == |m| && m3[hi] == m[hi]
      && TagsAgree(m3, MergeBlocks(bs, i)) && LinksAgree(m3, RemoveAt(fl, t))
  {
    var b, w := bs[i].start, bs[i].words + bs[i + 1].words;
    LinkAt(m, fl, t - 1);
    LinkAt(m, fl, t);
    assert TagsAt(m, bs[i]) && TagsAt(m, bs[i + 1]);
    TagsWriteInterior(m, bs, lo, hi, gq, fl[t - 1] + 1, m[fl[t] + 1]);
    var m2 := m[fl[t - 1] + 1 := m[fl[t] + 1]];
    MergeTags(m2, bs, lo, hi, i);
    MergeLinks(m, fl, t, w);
  }

  /** myfree's forward merge: the block at the head of the free list absorbs
      the free block after it, which is unlinked from position t of the list
      (mymalloc/mymalloc.c:106-124). */
  lemma MergeValid(m: seq<int>, bs: seq<Block>, fl: seq<nat>, i: nat, t: nat)
    requires ValidHeap(m, HeadOf(fl), bs, fl)
    requires i + 1 < |bs| && !bs[i].inUse && !bs[i + 1].inUse
    requires 0 < t < |fl| && fl[0] == bs[i].start && fl[t] == bs[i + 1].start
    ensures fl[t - 1] + 1 < |m| && fl[t] + 1 < |m|
    ensures
      var b, w := bs[i].start, bs[i].words + bs[i + 1].words;
      var m2 := m[fl[t - 1] + 1 := m[fl[t] + 1]];
      ValidHeap(FreeWrites(m2, b, w), HeadOf(fl), MergeBlocks(bs, i), RemoveAt(fl, t))
  {
    MergeWords(m, bs, fl, i, t);
    MergeStructure(bs, fl, 1, |m| - 1, i, t);
  }

  /** The words after myfree's forward merge, in a valid heap. */
  lemma MergeWords(m: seq<int>, bs: seq<Block>, fl: seq<nat>, i: nat, t: nat)
    requires ValidHeap(m, HeadOf(fl), bs, fl)
    requires i + 1 < |bs| && !bs[i].inUse && !bs[i + 1].inUse
    requires 0 < t < |fl| && fl[0] == bs[i].start && fl[t] == bs[i + 1].start
    ensures fl[t - 1] + 1 < |m| && fl[t] + 1 < |m|
    ensures var b, w := bs[i].start, bs[i].words + bs[i + 1].words;
      var m3 := FreeWrites(m[fl[t - 1] + 1 := m[fl[t] + 1]], b, w);
      && |m3| == |m| && IsAllocated(m3[|m3| - 1])
      && TagsAgree(m3, MergeBlocks(bs, i)) && LinksAgree(m3, RemoveAt(fl, t))
  {
    var gq := LinkWordInside(m, HeadOf(fl), bs, fl, t - 1);
    LinksOutsideExcept(m, HeadOf(fl), bs, fl, i, 0);
    LinksOutsideExcept(m, HeadOf(fl), bs, fl, i + 1, t);
    assert bs[i + 1].start == End(bs[i]);
    forall u | 0 <= u < |fl| && u != 0 && u != t
      ensures fl[u] + 1 < fl[0] || End(bs[i + 1]) <= fl[u]
    {
    }
    MergeMemory(m, bs, fl, 1, |m| - 1, i, t, gq);
  }

  /** The word just past block i, which myfree peeks at, is in the heap: it is
      either the sentinel, which is marked allocated, or the header of block
      i + 1. So a clear flag there means that block i + 1 is free. */
  lemma NextBlock(m: seq<int>, head: int, bs: seq<Block>, fl: seq<nat>, i: nat)
    requires ValidHeap(m, head, bs, fl) && i < |bs|
    ensures End(bs[i]) < |m|
    ensures !IsAllocated(m[End(bs[i])]) ==>
      i + 1 < |bs| && bs[i + 1].start == End(bs[i]) && !bs[i + 1].inUse
  {
    if i + 1 < |bs| {
      assert TagsAt(m, bs[i + 1]);
      TagFields(bs[i + 1]);
    }
  }

  /** A store into a live payload word keeps the heap valid. */
  lemma StoreValid(m: seq<int>, head: int, bs: seq<Block>, fl: seq<nat>, i: nat, x: int, v: int)
    requires ValidHeap(m, head, bs, fl) && i < |bs| && InPayload(bs, i, x)
    ensures 0 < x < |m| && ValidHeap(m[x := v], head, bs, fl)
  {
    PayloadIsolated(m, head, bs, fl, i, x);
    var m' := m[x := v];
    forall g | 0 <= g < |bs|
      ensures TagsAt(m', bs[g])
    {
      assert TagsAt(m, bs[g]);
    }
    forall k | 0 <= k < |fl|
      ensures fl[k] + 1 < |m'| && m'[fl[k] + 1] == Succ(fl, k)
    {
      LinkAt(m, fl, k);
    }
  }

  /** mymalloc's split stores, written out one after the other. */
  lemma SplitWritesUpdates(m: seq<int>, s: nat, w: nat, n: nat)
    requires 3 <= n && n + 3 <= w && s + w <= |m|
    ensures SplitWrites(m, s, w, n) ==
      m[s + n := 8 * (w - n)][s + w - 1 := 8 * (w - n)][s + n + 1 := m[s + 1]][s := 8 * n + 1][s + n - 1 := 8 * n + 1]
  {
    SplitWritesAt(m, s, w, n);
  }
}
