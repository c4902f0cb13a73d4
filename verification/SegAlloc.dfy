/** `extend_heap`, `place`, `mm_init`, `mm_malloc` and `mm_free` of `mm.c`. */
module SegAlloc {
  import opened Common
  import opened Memlib
  import opened Blocks
  import opened Fits
  import opened Tags
  import opened SegLists
  import opened SegHeap
  import opened SegMoves
  import opened SegOps
  import opened SegCoalesce

  /** `Base(Ceil)` */
  const BASE := 216
  const INIT_HEAP := 64
  const SPLIT_THRES := 100
  // ---------- place ----------

  /** `place` uses the low end of a block for small sizes, the high end for others. */
  predicate Low(need: int) {
    need < SPLIT_THRES
  }

  /** Words written by `place` when it splits a block into `x` and `y`. */
  lemma SplitInv(m: seq<int>, bs: seq<Block>, ls: seq<seq<Block>>, k: nat, x: Block, y: Block)
    requires k < |bs| && bs[k].free && SegInv(Ceil, m, bs, ls, {bs[k]})
    requires x.addr == bs[k].addr && y.addr == x.addr + x.size && x.size + y.size == bs[k].size && x.free != y.free
    requires x.size >= LEAST && y.size >= LEAST && x.size % 8 == 0
    ensures BASE <= x.addr && y.addr + y.size <= |m| && y.size % 8 == 0
    ensures Boundary(x.addr) && Boundary(y.addr) && Boundary(y.addr + y.size)
    ensures SegInv(Ceil, SplitTags(Ceil, m, x, y), Splice(bs, k, k + 1, [x, y]), ls, {if x.free then x else y})
    ensures Preserved(m, SplitTags(Ceil, m, x, y), bs, Splice(bs, k, k + 1, [x, y]), {})
  {
    hide SegInv, Preserved, Layout, Tiles, OnlyRegion, Tagged, TagWord, SplitTags;
    InvLayout(Ceil, m, bs, ls, {bs[k]});
    SplitWords(Ceil, m, bs, k, x, y);
    assert Freed([x, y]) == {if x.free then x else y};
    assert bs[k..k + 1] == [bs[k]];
    SpliceInv(Ceil, m, SplitTags(Ceil, m, x, y), bs, ls, k, k + 1, [x, y], {});
  }

  /** The low end of a block that has left its list is allocated, the rest goes into a list. */
  method TakeLow(h: Memory, bp: int, fsize: int, asize: int, ghost k: nat, ghost bs: seq<Block>, ghost ls: seq<seq<Block>>)
    returns (ghost ls': seq<seq<Block>>)
    requires h.Valid() && k < |bs| && bs[k] == Block(bp, fsize, true) && SegInv(Ceil, h.Mem(), bs, ls, {bs[k]})
    requires LEAST <= asize && asize + LEAST <= fsize && asize % 8 == 0 && asize < SPLIT_THRES
    modifies h.cells
    ensures SegInv(Ceil, h.Mem(), Place(bs, k, asize, Low(asize)), ls', {})
    ensures Preserved(old(h.Mem()), h.Mem(), bs, Place(bs, k, asize, Low(asize)), {})
  {
    hide SegInv, Preserved, Tiles, Layout, Freed, Masked, Aligned;
    ghost var m1, cs, x, y := h.Mem(), Place(bs, k, asize, Low(asize)), Block(bp, asize, false), Block(bp + asize, fsize - asize, true);
    SplitInv(m1, bs, ls, k, x, y);
    TagBits(Ceil, x);
    TagBits(Ceil, y);
    PutTags(h, bp, asize + 1);
    var next := bp + Masked(h.Get(bp - 4));
    PutTags(h, next, fsize - asize);
    ghost var m2 := h.Mem();
    SpliceMembers(bs, k, k + 1, [x, y], y);
    ls' := PushTagged(h, next, y, cs, ls);
    PreservedTrans(m1, m2, h.Mem(), bs, cs, cs, {});
  }

  /** The high end of a block that has left its list is allocated, the rest goes into a list. */
  method TakeHigh(h: Memory, bp: int, fsize: int, asize: int, ghost k: nat, ghost bs: seq<Block>, ghost ls: seq<seq<Block>>)
    returns (r: int, ghost ls': seq<seq<Block>>)
    requires h.Valid() && k < |bs| && bs[k] == Block(bp, fsize, true) && SegInv(Ceil, h.Mem(), bs, ls, {bs[k]})
    requires LEAST <= asize && asize + LEAST <= fsize && asize % 8 == 0 && fsize % 8 == 0 && asize >= SPLIT_THRES
    modifies h.cells
    ensures SegInv(Ceil, h.Mem(), Place(bs, k, asize, Low(asize)), ls', {})
    ensures Preserved(old(h.Mem()), h.Mem(), bs, Place(bs, k, asize, Low(asize)), {})
    ensures r == bp + fsize - asize
  {
    hide SegInv, Preserved, Tiles, Layout, Freed, Masked, Aligned;
    ghost var m1, cs := h.Mem(), Place(bs, k, asize, Low(asize));
    ghost var x, y := Block(bp, fsize - asize, true), Block(bp + fsize - asize, asize, false);
    SplitInv(m1, bs, ls, k, x, y);
    TagBits(Ceil, x);
    TagBits(Ceil, y);
    PutTags(h, bp, fsize - asize);
    r := bp + Masked(h.Get(bp - 4));
    PutTags(h, r, asize + 1);
    ghost var m2 := h.Mem();
    SpliceMembers(bs, k, k + 1, [x, y], x);
    ls' := PushTagged(h, bp, x, cs, ls);
    PreservedTrans(m1, m2, h.Mem(), bs, cs, cs, {});
    InvLayout(Ceil, h.Mem(), cs, ls', {});
    assert cs[k] == x;
    TagsAt(Ceil, h.Mem(), cs, k);
    r := bp + Masked(h.Get(bp - 4));
  }

  /** `place`: allocate in a listed free block. */
  method PlaceBlock(h: Memory, bp: int, asize: int, ghost k: nat, ghost bs: seq<Block>, ghost ls: seq<seq<Block>>)
    returns (r: int, ghost ls': seq<seq<Block>>)
    requires h.Valid() && SegInv(Ceil, h.Mem(), bs, ls, {})
    requires k < |bs| && bs[k].free && bs[k].addr == bp && LEAST <= asize <= bs[k].size && asize % 8 == 0
    modifies h.cells
    ensures SegInv(Ceil, h.Mem(), Place(bs, k, asize, Low(asize)), ls', {}) && r == Placed(bs[k], asize, Low(asize)).addr && r != NULL
    ensures Preserved(old(h.Mem()), h.Mem(), bs, Place(bs, k, asize, Low(asize)), {})
  {
    hide SegInv, Preserved, Tiles, Layout, Freed, Masked, Aligned;
    ghost var m, b, cs := h.Mem(), bs[k], Place(bs, k, asize, Low(asize));
    InvLayout(Ceil, m, bs, ls, {});
    TagsAt(Ceil, m, bs, k);
    var fsize := Masked(h.Get(bp - 4));
    r, ls' := bp, ls;
    ls' := Pop(h, bp, k, bs, ls, {});
    ghost var m1 := h.Mem();
    assert {} + {b} == {b};
    if fsize < asize + 16 {
      Whole(m1, bs, ls', k);
      TagBits(Ceil, Block(bp, fsize, false));
      PutTags(h, bp, fsize + 1);
    } else if asize < SPLIT_THRES {
      ls' := TakeLow(h, bp, fsize, asize, k, bs, ls');
    } else {
      r, ls' := TakeHigh(h, bp, fsize, asize, k, bs, ls');
    }
    PreservedTrans(m, m1, h.Mem(), bs, bs, cs, {});
  }

  lemma Whole(m: seq<int>, bs: seq<Block>, ls: seq<seq<Block>>, k: nat)
    requires k < |bs| && bs[k].free && SegInv(Ceil, m, bs, ls, {bs[k]})
    ensures BASE <= bs[k].addr && bs[k].addr + bs[k].size <= |m| && bs[k].size >= LEAST
    ensures Boundary(bs[k].addr) && Boundary(bs[k].addr + bs[k].size)
    ensures var u := Block(bs[k].addr, bs[k].size, false);
      var m' := m[u.addr - 4 := TagWord(Ceil, u)][u.addr + u.size - 8 := TagWord(Ceil, u)];
      SegInv(Ceil, m', Splice(bs, k, k + 1, [u]), ls, {}) && Preserved(m, m', bs, Splice(bs, k, k + 1, [u]), {})
  {
    hide SegInv, Preserved, Layout, Tiles;
    InvLayout(Ceil, m, bs, ls, {bs[k]});
    WholeWords(Ceil, m, bs, k, false);
    assert bs[k..k + 1] == [bs[k]];
    Retagged(Ceil, m, bs, ls, k, k + 1, Block(bs[k].addr, bs[k].size, false), {});
  }

  // ---------- extend_heap ----------

  /** `extend_heap`: `words` words more, rounded up to an even number, as one free block. */
  method ExtendHeap(h: Memory, words: int, ghost bs: seq<Block>, ghost ls: seq<seq<Block>>)
    returns (r: int, ghost n: int, ghost ls': seq<seq<Block>>)
    requires h.Valid() && SegInv(Ceil, h.Mem(), bs, ls, {})
    requires 4 <= words
    modifies h`brk, h.cells
    ensures h.Valid() && n == (words + 1) / 2 * 8
    ensures r == NULL <==> old(h.brk) + n > h.cells.Length
    ensures r == NULL ==> h.brk == old(h.brk) && h.Mem() == old(h.Mem()) && ls' == ls
    ensures r != NULL ==>
      && h.brk == old(h.brk) + n && SegInv(Ceil, h.Mem(), Extended(bs, old(h.brk), n), ls', {})
      && r == GrowStart(bs, old(h.brk)) && Preserved(old(h.Mem()), h.Mem(), bs, Extended(bs, old(h.brk), n), {})
  {
    hide SegInv, Preserved, Tiles, Layout, Release, Masked, Aligned;
    var asize := (words + 1) / 2 * 8;
    n, ls' := asize, ls;
    ghost var m := h.Mem();
    InvLayout(Ceil, m, bs, ls, {});
    HeapStart(m, bs, ls);
    Eighth(asize, (words + 1) / 2);
    StartAligned(Ceil, m, bs, |bs|);
    MultipleSum(|m|, asize);
    var bp := h.Sbrk(asize);
    if bp == FAILED {
      return NULL, n, ls;
    }
    TagBits(Ceil, Block(bp, asize, true));
    PutTags(h, bp, asize);
    h.Put(bp + Masked(h.Get(bp - 4)) - 4, 1);
    ghost var m1, b := h.Mem(), Block(bp, asize, true);
    Grown(Ceil, m, m1, bs, ls, asize);
    ls' := PushTagged(h, bp, b, bs + [b], ls);
    ghost var m2 := h.Mem();
    assert (bs + [b])[|bs|] == b;
    r, ls' := Coalesce(h, bp, |bs|, bs + [b], ls');
    ExtendedLast(bs, BASE, |m|, asize);
    MergedStart(bs, b);
    PreservedTrans(m, m1, m2, bs, bs + [b], bs + [b], {});
    PreservedTrans(m, m2, h.Mem(), bs, bs + [b], Extended(bs, |m|, asize), {});
    GrowStartWhere(bs, BASE, |m|);
  }

  lemma HeapStart(m: seq<int>, bs: seq<Block>, ls: seq<seq<Block>>)
    requires SegInv(Ceil, m, bs, ls, {})
    ensures BASE <= |m|
  {
  }

  // ---------- malloc and free ----------

  /** A heap between calls. */
  ghost predicate Settled(m: seq<int>, bs: seq<Block>, ls: seq<seq<Block>>) {
    SegInv(Ceil, m, bs, ls, {}) && Coalesced(bs)
  }

  /** The low end for less than 100 bytes, the high end for more, all of the block if less than 16 bytes would be left. */
  lemma PlacedEnd(b: Block, need: int)
    ensures Placed(b, need, Low(need)) ==
      if b.size < need + 16 then Block(b.addr, b.size, false)
      else Block(if need < 100 then b.addr else b.addr + b.size - need, need, false)
  {
  }

  lemma SettledWellFormed(m: seq<int>, bs: seq<Block>, ls: seq<seq<Block>>)
    requires Settled(m, bs, ls)
    ensures WellFormed(bs, BASE, |m|, LEAST) && BASE <= |m| && SegInv(Ceil, m, bs, ls, {}) && Layout(Ceil, m, bs)
  {
    forall b | b in bs ensures b.size >= LEAST {
      assert Tagged(Ceil, m, b);
    }
  }

  lemma SettledApart(m: seq<int>, bs: seq<Block>, ls: seq<seq<Block>>)
    requires Settled(m, bs, ls)
    ensures Coalesced(bs)
  {
  }

  // ---------- steps of the calls ----------

  /** The heap that `mm_init` has written before it first grows. */
  lemma EmptyHeap(m0: seq<int>, m: seq<int>)
    requires |m0| == 200 && forall j :: 0 <= j < Lists(Ceil) ==> m0[4 * j] == NULL
    requires |m| == BASE && m[..200] == m0 && m[204] == 9 && m[208] == 9 && m[212] == 1
    ensures SegInv(Ceil, m, [], seq(Lists(Ceil), c => []), {})
  {
    var ls: seq<seq<Block>> := seq(Lists(Ceil), c => []);
    forall c | 0 <= c < Lists(Ceil) ensures Chain(Ceil, m, 4 * c, ls[c]) {
      assert m[..200][4 * c] == m0[4 * c];
    }
  }

  lemma SmallestIndex(bs: seq<Block>, b: Block, need: int) returns (k: nat)
    requires Smallest(bs, b, need)
    ensures k < |bs| && bs[k] == b
  {
    k :| 0 <= k < |bs| && bs[k] == b;
  }

  lemma PlaceSettled(m: seq<int>, bs: seq<Block>, ls: seq<seq<Block>>, k: nat, need: int)
    requires k < |bs| && bs[k].free && Coalesced(bs) && SegInv(Ceil, m, Place(bs, k, need, Low(need)), ls, {})
    ensures Settled(m, Place(bs, k, need, Low(need)), ls) && Placed(bs[k], need, Low(need)) in Place(bs, k, need, Low(need))
  {
    hide SegInv;
    PlaceCoalesced(bs, k, need, Low(need));
    var mid := Split(bs[k], need, Low(need));
    assert mid[0] == Placed(bs[k], need, Low(need)) || mid[1] == Placed(bs[k], need, Low(need));
    SpliceMembers(bs, k, k + 1, mid, Placed(bs[k], need, Low(need)));
  }

  /** `PUT_LBIT(p, 1, 0)`: clear the bit above the allocated bit. */
  function ClearTag(w: int): int {
    w - w / 2 % 2 * 2
  }

  /** `mm_free` reads and clears bits of the next block, or of the epilogue. */
  lemma FreeReads(m: seq<int>, bs: seq<Block>, k: nat)
    requires Layout(Ceil, m, bs) && k < |bs|
    ensures BASE <= bs[k].addr && bs[k].addr + bs[k].size <= |m| && LEAST <= bs[k].size && Masked(m[bs[k].addr - 4]) == bs[k].size
    ensures var next := bs[k].addr + bs[k].size;
      var f := next + Masked(m[next - 4]) - 8;
      && 0 <= f && f + 4 <= |m| && ClearTag(m[next - 4]) == m[next - 4] && ClearTag(m[f]) == m[f]
      && Boundary(bs[k].addr) && Boundary(next) && Aligned(f)
  {
    hide Masked, ClearTag, Layout, TagWord;
    Around(Ceil, m, bs, k);
    TagsAt(Ceil, m, bs, k);
    var next := bs[k].addr + bs[k].size;
    ClearTagNone(m[next - 4]);
    if k + 1 < |bs| {
      TagsAt(Ceil, m, bs, k + 1);
      ClearTagNone(m[next + bs[k + 1].size - 8]);
    } else {
      EpilogueWord(m, bs);
      ClearTagNone(m[next - 8]);
    }
  }

  lemma ClearTagNone(w: int)
    requires w / 2 % 2 == 0
    ensures ClearTag(w) == w
  {
  }

  lemma EpilogueWord(m: seq<int>, bs: seq<Block>)
    requires Layout(Ceil, m, bs)
    ensures BASE <= |m| && Masked(m[|m| - 4]) == 0
  {
  }

  lemma Unlisted(m: seq<int>, bs: seq<Block>, ls: seq<seq<Block>>, k: nat)
    requires k < |bs| && !bs[k].free && SegInv(Ceil, m, bs, ls, {})
    ensures BASE <= bs[k].addr && bs[k].addr + bs[k].size <= |m| && bs[k].size >= LEAST && bs[k].size % 8 == 0
    ensures var b := Block(bs[k].addr, bs[k].size, true);
      var m' := m[b.addr - 4 := b.size][b.addr + b.size - 8 := b.size];
      && SegInv(Ceil, m', Splice(bs, k, k + 1, [b]), ls, {b}) && Preserved(m, m', bs, Splice(bs, k, k + 1, [b]), {bs[k]})
  {
    hide SegInv, Preserved, Layout, Tiles;
    InvLayout(Ceil, m, bs, ls, {});
    WholeWords(Ceil, m, bs, k, true);
    assert bs[k..k + 1] == [bs[k]];
    Retagged(Ceil, m, bs, ls, k, k + 1, Block(bs[k].addr, bs[k].size, true), {bs[k]});
  }

  /** `mm_free` on the block at `ptr`. */
  method FreeBlock(h: Memory, ptr: int, ghost k: nat, ghost bs: seq<Block>, ghost ls: seq<seq<Block>>)
    returns (ghost ls': seq<seq<Block>>)
    requires h.Valid() && SegInv(Ceil, h.Mem(), bs, ls, {})
    requires k < |bs| && !bs[k].free && bs[k].addr == ptr
    modifies h.cells
    ensures SegInv(Ceil, h.Mem(), Release(bs, k), ls', {})
    ensures Preserved(old(h.Mem()), h.Mem(), bs, Release(bs, k), {bs[k]})
  {
    hide SegInv, Preserved, Tiles, Layout, Masked, Release, ClearTag, Aligned;
    ghost var m := h.Mem();
    InvLayout(Ceil, m, bs, ls, {});
    FreeReads(m, bs, k);
    Unlisted(m, bs, ls, k);
    ReleaseFreed(bs, k);
    var size := Masked(h.Get(ptr - 4));
    var next := ptr + Masked(h.Get(ptr - 4));
    h.Put(next - 4, ClearTag(h.Get(next - 4)));
    var footer := next + Masked(h.Get(next - 4)) - 8;
    h.Put(footer, ClearTag(h.Get(footer)));
    assert h.Mem() == m;
    MaskedSize(size);
    PutTags(h, ptr, size);
    ghost var m1, b, bs1 := h.Mem(), Block(ptr, size, true), Splice(bs, k, k + 1, [Block(ptr, size, true)]);
    SpliceMembers(bs, k, k + 1, [b], b);
    ls' := PushTagged(h, ptr, b, bs1, ls);
    ghost var m2, r := h.Mem(), 0;
    r, ls' := Coalesce(h, ptr, k, bs1, ls');
    PreservedTrans(m1, m2, h.Mem(), bs1, bs1, Release(bs, k), {});
    PreservedMore(m1, h.Mem(), bs1, Release(bs, k), {bs[k]});
    PreservedTrans(m, m1, h.Mem(), bs, bs1, Release(bs, k), {bs[k]});
  }

  lemma FreeSettled(m: seq<int>, bs: seq<Block>, ls: seq<seq<Block>>, k: nat)
    requires WellFormed(bs, BASE, |m|, LEAST) && k < |bs| && !bs[k].free && SegInv(Ceil, m, Release(bs, k), ls, {})
    ensures Settled(m, Release(bs, k), ls)
  {
    hide SegInv;
    ReleaseWellFormed(bs, k, BASE, |m|, LEAST);
  }

  /** The loop of `mm_init`. */
  method ClearLists(h: Memory, segList: int)
    requires h.Valid() && segList == 0 && h.brk == 4 * Lists(Ceil)
    modifies h.cells
    ensures forall j :: 0 <= j < Lists(Ceil) ==> h.Mem()[4 * j] == NULL
  {
    var i := 0;
    while i < Lists(Ceil)
      invariant 0 <= i <= Lists(Ceil)
      invariant forall j :: 0 <= j < i ==> h.Mem()[4 * j] == NULL
    {
      h.Put(segList + 4 * i, NULL);
      i := i + 1;
    }
  }

  lemma StillThere(m: seq<int>, m': seq<int>, bs: seq<Block>, bs': seq<Block>, b: Block)
    requires Preserved(m, m', bs, bs', {}) && !b.free
    ensures b in bs ==> b in bs'
  {
  }

  class SegAllocator {
    const heap: Memory
    /** The partition of the heap and the contents of the free lists. */
    ghost var blocks: seq<Block>
    ghost var lists: seq<seq<Block>>

    ghost predicate Valid()
      reads this, heap, heap.cells
    {
      heap.Valid() && Settled(heap.Mem(), blocks, lists)
    }

    constructor (maxHeap: nat)
      requires maxHeap <= INT_MAX
      ensures heap.Valid() && heap.brk == 0 && heap.cells.Length == maxHeap
      ensures fresh(heap) && fresh(heap.cells)
    {
      heap := new Memory(maxHeap);
      blocks, lists := [], [];
    }

    /** `mm_init` on an empty heap. */
    method Init() returns (r: int)
      requires heap.Valid() && heap.brk == 0
      modifies this, heap`brk, heap.cells
      ensures r == 0 || r == -1
      ensures r == 0 <==> heap.cells.Length >= 472
      ensures r == 0 ==> Valid() && blocks == [Block(216, 256, true)] && heap.brk == 472
    {
      hide SegInv, Preserved;
      var segList := heap.Sbrk(Lists(Ceil) * 4);
      if segList == FAILED {
        return -1;
      }
      ClearLists(heap, segList);
      ghost var m0 := heap.Mem();
      var p := heap.Sbrk(16);
      if p == FAILED {
        return -1;
      }
      heap.Put(p, 0);
      heap.Put(p + 4, 8 + 1);
      heap.Put(p + 8, 8 + 1);
      heap.Put(p + 12, 0 + 1);
      EmptyHeap(m0, heap.Mem());
      ghost var n;
      blocks, lists := [], seq(Lists(Ceil), c => []);
      var bp;
      bp, n, lists := ExtendHeap(heap, INIT_HEAP, blocks, lists);
      if bp == NULL {
        return -1;
      }
      blocks := Extended([], BASE, n);
      ExtendedLast([], BASE, BASE, n);
      return 0;
    }

    /** The search in `mm_malloc`: a block that fits, if there is none after growing the heap. */
    method Obtain(asize: int) returns (p: int, ghost k: nat)
      requires Valid() && LEAST <= asize && asize % 8 == 0
      modifies this, heap`brk, heap.cells
      ensures heap.Valid()
      ensures p == NULL <==> !old(SomeFit(blocks, asize)) && old(heap.brk) + Max(asize, 4096) > heap.cells.Length
      ensures p == NULL ==> blocks == old(blocks) && lists == old(lists) && heap.Mem() == old(heap.Mem())
      ensures p != NULL ==>
        && blocks == old(Supply(blocks, heap.brk, asize)) && SegInv(Ceil, heap.Mem(), blocks, lists, {}) && Coalesced(blocks)
        && k < |blocks| && Smallest(blocks, blocks[k], asize) && p == blocks[k].addr
        && (old(SomeFit(blocks, asize)) ==> StopsAt(Ceil, old(lists), blocks[k], asize))
        && heap.brk == old(heap.brk) + (if old(SomeFit(blocks, asize)) then 0 else Max(asize, 4096))
      ensures Preserved(old(heap.Mem()), heap.Mem(), old(blocks), blocks, {})
    {
      hide SegInv, Preserved, SomeFit, Smallest, StopsAt, Extended, Coalesced, Tiles, Layout, Settled, WellFormed;
      ghost var m, bs, to := heap.Mem(), blocks, heap.brk;
      k := 0;
      SettledWellFormed(m, bs, lists);
      SettledApart(m, bs, lists);
      PreservedRefl(Ceil, m, bs, {});
      ghost var b;
      p, b := FindFit(heap, asize, bs, lists);
      if p != NULL {
        k := SmallestIndex(bs, b, asize);
      } else {
        var extendSize := Max(asize, CHUNKSIZE);
        ChunkWords(asize);
        ghost var n;
        p, n, lists := ExtendHeap(heap, extendSize / 4, bs, lists);
        if p != NULL {
          k := GrownFit(bs, BASE, to, asize);
          blocks := Extended(bs, to, n);
        }
      }
    }

    /** `mm_malloc`: a smallest sufficient block; if there is none, the heap grows by the block size or `CHUNKSIZE`. */
    method Malloc(size: int) returns (p: int, ghost k: nat)
      requires Valid() && 0 <= size <= LARGEST
      modifies this, heap`brk, heap.cells
      ensures Valid()
      ensures LeastSize(Adjusted(size), size, 16)
      ensures var full := old(heap.brk) + Max(Adjusted(size), 4096) > heap.cells.Length;
        p == NULL <==> (size == 0 || (!old(SomeFit(blocks, Adjusted(size))) && full))
      ensures p == NULL ==> blocks == old(blocks) && heap.Mem() == old(heap.Mem())
      ensures p != NULL ==>
        var need, base := Adjusted(size), old(Supply(blocks, heap.brk, Adjusted(size)));
        && k < |base| && Smallest(base, base[k], need) && blocks == Place(base, k, need, Low(need))
        && (old(SomeFit(blocks, need)) ==> StopsAt(Ceil, old(lists), base[k], need))
        && p == Placed(base[k], need, Low(need)).addr && Placed(base[k], need, Low(need)) in blocks
        && Placed(base[k], need, Low(need)) !in old(blocks)
        && heap.brk == old(heap.brk) + (if old(SomeFit(blocks, need)) then 0 else Max(need, 4096))
        && var b := base[k];
          Placed(b, need, Low(need)) ==
            (if b.size < need + 16 then Block(b.addr, b.size, false)
             else Block(if need < 100 then b.addr else b.addr + b.size - need, need, false))
      ensures Preserved(old(heap.Mem()), heap.Mem(), old(blocks), blocks, {})
    {
      hide SegInv, Preserved, SomeFit, Smallest, StopsAt, Extended, Coalesced, Tiles, Layout, Place, Settled, WellFormed, Placed, Low,
        Supply, Max, Boundary;
      ghost var m, bs, to := heap.Mem(), blocks, heap.brk;
      k := 0;
      SettledWellFormed(m, bs, lists);
      PreservedRefl(Ceil, m, bs, {});
      if size == 0 {
        return NULL, k;
      }
      AdjustedFits(size);
      var asize := if size <= 8 then 16 else (size + 8 + 7) % TWO32 / 8 * 8;
      p, k := Obtain(asize);
      if p == NULL {
        return NULL, k;
      }
      ghost var m1, base := heap.Mem(), blocks;
      SmallestFits(base, base[k], asize);
      InvLayout(Ceil, m1, base, lists, {});
      PlacedNew(base, k, asize, Low(asize), BASE, |m1|);
      assert Placed(base[k], asize, Low(asize)) !in bs by {
        StillThere(m, m1, bs, base, Placed(base[k], asize, Low(asize)));
      }
      p, lists := PlaceBlock(heap, p, asize, k, base, lists);
      blocks := Place(base, k, asize, Low(asize));
      PlaceSettled(heap.Mem(), base, lists, k, asize);
      PlacedEnd(base[k], asize);
      PreservedTrans(m, m1, heap.Mem(), bs, base, blocks, {});
    }

    /** `mm_free`: the block merges with its free neighbours. */
    method Free(ptr: int)
      requires Valid() && exists b :: b in blocks && b.addr == ptr && !b.free
      modifies this, heap.cells
      ensures Valid()
      ensures var k := old(IndexOf(blocks, ptr));
        && !old(blocks)[k].free && blocks == Release(old(blocks), k)
        && Preserved(old(heap.Mem()), heap.Mem(), old(blocks), blocks, {old(blocks)[k]})
    {
      hide SegInv, Preserved, Settled, WellFormed, Layout, Release;
      ghost var m, bs, k := heap.Mem(), blocks, IndexOf(blocks, ptr);
      SettledWellFormed(m, bs, lists);
      ghost var b :| b in bs && b.addr == ptr && !b.free;
      WellFormedTiles(bs, BASE, |m|, LEAST);
      OneAtAddress(bs, BASE, |m|, b);
      lists := FreeBlock(heap, ptr, k, bs, lists);
      blocks := Release(bs, k);
      FreeSettled(heap.Mem(), bs, lists, k);
    }

    /** The owner of an allocated block stores a word in its payload. */
    method Store(a: int, v: int, ghost b: Block)
      requires Valid() && b in blocks && !b.free && b.addr <= a && Aligned(a) && a + 4 <= b.addr + b.size - 8
      modifies heap.cells
      ensures Valid() && heap.Mem() == old(heap.Mem())[a := v]
      ensures Preserved(old(heap.Mem()), heap.Mem(), blocks, blocks, {b})
    {
      PayloadInside(Ceil, heap.Mem(), blocks, lists, b);
      PayloadInv(Ceil, heap.Mem(), heap.Mem()[a := v], blocks, lists, b);
      heap.Put(a, v);
    }
  }
}
