/** `mm_explicit_ref.c`: a first-fit allocator over a circular free list, with `mm_realloc`. */
module RingAlloc {
  import opened Common
  import opened Memlib
  import opened Blocks
  import opened Fits
  import opened Tags
  import opened RingList
  import opened RingHeap

  const BASE := 24

  // ---------- list_add, list_remove ----------

  /** `list_add`: the block becomes the first of the ring. */
  method ListAdd(h: Memory, p: int, ghost b: Block, ghost bs: seq<Block>, ghost xs: seq<Block>)
    requires h.Valid() && RingInv(h.Mem(), bs, xs, {b}) && b in bs && b.free && b.addr == p
    modifies h.cells
    ensures RingInv(h.Mem(), bs, [b] + xs, {}) && Preserved(old(h.Mem()), h.Mem(), bs, bs, {})
  {
    hide RingInv, OnlyLinks, Preserved, Circle, Node, Aligned;
    ghost var m := h.Mem();
    InvParts(m, bs, xs, {b});
    RingWords(m, xs);
    AddedInv(m, bs, xs, {b}, b);
    LinksPreserved(Ring, m, Added(m, xs, b), bs, {});
    assert {b} - {b} == {};
    h.Put(p + 4, h.Get(SENTINEL + 4));
    h.Put(p, SENTINEL);
    h.Put(h.Get(SENTINEL + 4), p);
    h.Put(SENTINEL + 4, p);
  }

  /** `list_remove`: the block leaves the ring. */
  method ListRemove(h: Memory, p: int, ghost b: Block, ghost bs: seq<Block>, ghost xs: seq<Block>, ghost out: set<Block>)
    returns (ghost xs': seq<Block>)
    requires h.Valid() && RingInv(h.Mem(), bs, xs, out) && b in bs && b.free && b !in out && b.addr == p
    modifies h.cells
    ensures RingInv(h.Mem(), bs, xs', out + {b}) && Preserved(old(h.Mem()), h.Mem(), bs, bs, {})
    ensures xs' == Rest(xs, {b})
  {
    hide RingInv, OnlyLinks, Preserved, Circle, Node, Aligned;
    ghost var m := h.Mem();
    ghost var k := RingPosition(m, bs, xs, out, b);
    InvParts(m, bs, xs, out);
    RemovedInv(m, bs, xs, out, b, k);
    LinksPreserved(Ring, m, Removed(m, xs, k), bs, {});
    h.Put(h.Get(p) + 4, h.Get(p + 4));
    h.Put(h.Get(p + 4), h.Get(p));
    xs' := Without(xs, k);
  }

  // ---------- coalesce ----------

  /** The tags that `coalesce` writes when only the next block is free. */
  method JoinNext(h: Memory, bp: int, ghost own: int, ghost next: int)
    requires h.Valid() && 8 <= bp && 16 <= own && 16 <= next && bp + own + next <= h.brk && Masked(own + next) == own + next
    requires Boundary(bp) && Boundary(bp + own) && Boundary(bp + own + next)
    requires Masked(h.Mem()[bp - 4]) == own && Masked(h.Mem()[bp + own - 4]) == next
    modifies h.cells
    ensures h.Mem() == old(h.Mem())[bp - 4 := own + next][bp + own + next - 8 := own + next]
  {
    hide Masked, Aligned;
    var size := Masked(h.Get(bp - 4));
    size := size + Masked(h.Get(bp + Masked(h.Get(bp - 4)) - 4));
    h.Put(bp - 4, size);
    h.Put(bp + Masked(h.Get(bp - 4)) - 8, size);
  }

  /** The same when only the previous block is free. */
  method JoinPrev(h: Memory, bp: int, ghost prev: int, ghost own: int) returns (r: int)
    requires h.Valid() && 8 <= bp - prev && 16 <= prev && 16 <= own && bp + own <= h.brk
    requires Boundary(bp - prev) && Boundary(bp) && Boundary(bp + own)
    requires Masked(h.Mem()[bp - 4]) == own && Masked(h.Mem()[bp - 8]) == prev && Masked(h.Mem()[bp - prev - 4]) == prev
    modifies h.cells
    ensures h.Mem() == old(h.Mem())[bp - prev - 4 := prev + own][bp + own - 8 := prev + own] && r == bp - prev
  {
    hide Masked, Aligned;
    var size := Masked(h.Get(bp - 4));
    size := size + Masked(h.Get(bp - Masked(h.Get(bp - 8)) - 4));
    EitherOrder(h.Mem(), bp - prev - 4, bp + own - 8, size);
    h.Put(bp + Masked(h.Get(bp - 4)) - 8, size);
    h.Put(bp - Masked(h.Get(bp - 8)) - 4, size);
    r := bp - Masked(h.Get(bp - 8));
  }

  /** The same when both neighbours are free. */
  method JoinBoth(h: Memory, bp: int, ghost prev: int, ghost own: int, ghost next: int) returns (r: int)
    requires h.Valid() && 8 <= bp - prev && 16 <= prev && 16 <= own && 16 <= next && bp + own + next <= h.brk
    requires Boundary(bp - prev) && Boundary(bp) && Boundary(bp + own) && Boundary(bp + own + next)
    requires Masked(h.Mem()[bp - 4]) == own && Masked(h.Mem()[bp - 8]) == prev && Masked(h.Mem()[bp - prev - 4]) == prev
    requires Masked(h.Mem()[bp + own - 4]) == next && Masked(h.Mem()[bp + own + next - 8]) == next
    modifies h.cells
    ensures var size := prev + own + next;
      h.Mem() == old(h.Mem())[bp - prev - 4 := size][bp + own + next - 8 := size] && r == bp - prev
  {
    hide Masked, Aligned;
    var prevBlk, nextBlk := bp - Masked(h.Get(bp - 8)), bp + Masked(h.Get(bp - 4));
    var size := Masked(h.Get(bp - 4));
    size := size + (Masked(h.Get(prevBlk - 4)) + Masked(h.Get(nextBlk + Masked(h.Get(nextBlk - 4)) - 8)));
    h.Put(prevBlk - 4, size);
    h.Put(nextBlk + Masked(h.Get(nextBlk - 4)) - 8, size);
    r := bp - Masked(h.Get(bp - 8));
  }

  /** The tags that `coalesce` writes, case by case. */
  method PutMerged(h: Memory, bp: int, prevAlloc: bool, nextAlloc: bool, ghost k: nat, ghost bs: seq<Block>) returns (r: int)
    requires h.Valid() && Layout(Ring, h.Mem(), bs) && k < |bs| && bs[k].free && bs[k].addr == bp
    requires (!prevAlloc <==> k > 0 && bs[k - 1].free) && (!nextAlloc <==> k + 1 < |bs| && bs[k + 1].free)
    modifies h.cells
    ensures r == Merged(bs, k).addr
    ensures prevAlloc && nextAlloc ==> h.Mem() == old(h.Mem())
    ensures !(prevAlloc && nextAlloc) ==> var b := Merged(bs, k);
      && 4 <= b.addr && 8 <= b.size && b.addr + b.size <= h.brk
      && h.Mem() == old(h.Mem())[b.addr - 4 := b.size][b.addr + b.size - 8 := b.size]
  {
    hide Layout, Masked, Merged, TagWord, Boundary;
    Around(Ring, h.Mem(), bs, k);
    NextFooter(h.Mem(), bs, k);
    MergedCases(bs, k, !prevAlloc, !nextAlloc);
    r := bp;
    if prevAlloc && !nextAlloc {
      MergedSize(0, bs[k].size, bs[k + 1].size);
      MaskedSize(bs[k].size + bs[k + 1].size);
      JoinNext(h, bp, bs[k].size, bs[k + 1].size);
    } else if !prevAlloc && nextAlloc {
      r := JoinPrev(h, bp, bs[k - 1].size, bs[k].size);
    } else if !prevAlloc && !nextAlloc {
      r := JoinBoth(h, bp, bs[k - 1].size, bs[k].size, bs[k + 1].size);
    }
  }

  lemma EitherOrder(m: seq<int>, i: int, j: int, v: int)
    requires 0 <= i < |m| && 0 <= j < |m|
    ensures m[j := v][i := v] == m[i := v][j := v]
  {
  }

  lemma NextFooter(m: seq<int>, bs: seq<Block>, k: nat)
    requires Layout(Ring, m, bs) && k < |bs|
    ensures k + 1 < |bs| ==> var b := bs[k + 1];
      && 8 <= b.addr && b.size >= LEAST && b.size % 8 == 0 && Boundary(b.addr + b.size) && b.addr + b.size <= |m|
      && Masked(m[b.addr + b.size - 8]) == b.size
    ensures k > 0 ==> bs[k - 1].size >= LEAST
  {
    hide Layout, Masked, TagWord;
    TagsAt(Ring, m, bs, k);
    if k > 0 {
      TagsAt(Ring, m, bs, k - 1);
    }
    if k + 1 < |bs| {
      TagsAt(Ring, m, bs, k + 1);
    }
  }

  /** The merged block, case by case. */
  lemma MergedCases(bs: seq<Block>, k: nat, prevFree: bool, nextFree: bool)
    requires k < |bs| && (prevFree <==> k > 0 && bs[k - 1].free) && (nextFree <==> k + 1 < |bs| && bs[k + 1].free)
    ensures Merged(bs, k).addr == if prevFree then bs[k - 1].addr else bs[k].addr
    ensures Merged(bs, k).size == (if prevFree then bs[k - 1].size else 0) + bs[k].size + (if nextFree then bs[k + 1].size else 0)
  {
  }

  /** The calls of `list_remove` in `coalesce`: the free neighbours leave the ring. */
  method LeaveRing(h: Memory, prev: int, next: int, prevAlloc: bool, nextAlloc: bool,
      ghost k: nat, ghost bs: seq<Block>, ghost xs: seq<Block>)
    returns (ghost xs': seq<Block>)
    requires h.Valid() && k < |bs| && bs[k].free && RingInv(h.Mem(), bs, xs, {bs[k]})
    requires !prevAlloc <==> k > 0 && bs[k - 1].free
    requires !nextAlloc <==> k + 1 < |bs| && bs[k + 1].free
    requires (!prevAlloc ==> prev == bs[k - 1].addr) && (!nextAlloc ==> next == bs[k + 1].addr)
    modifies h.cells
    ensures RingInv(h.Mem(), bs, xs', Freed(bs[First(bs, k)..Past(bs, k)]))
    ensures Preserved(old(h.Mem()), h.Mem(), bs, bs, {}) && xs' == Rest(xs, Sides(bs, k))
  {
    hide RingInv, Preserved, Layout, Tiles, Freed;
    ghost var m, out := h.Mem(), {bs[k]};
    InvParts(m, bs, xs, out);
    Joined(Ring, m, bs, k);
    PreservedRefl(Ring, m, bs, {});
    RestNone(xs);
    xs' := xs;
    if !prevAlloc {
      xs' := ListRemove(h, prev, bs[k - 1], bs, xs', out);
      out := out + {bs[k - 1]};
    }
    ghost var m1, gone := h.Mem(), if prevAlloc then {} else {bs[k - 1]};
    assert xs' == Rest(xs, gone);
    if !nextAlloc {
      xs' := ListRemove(h, next, bs[k + 1], bs, xs', out);
      out := out + {bs[k + 1]};
      PreservedTrans(m, m1, h.Mem(), bs, bs, bs, {});
      RestTwice(xs, gone, {bs[k + 1]});
    }
    assert Sides(bs, k) == if nextAlloc then gone else gone + {bs[k + 1]};
    assert out == Freed(bs[First(bs, k)..Past(bs, k)]);
  }

  /** The free neighbours have left the ring; the tags of the merged block are written. */
  method PutJoined(h: Memory, bp: int, prevAlloc: bool, nextAlloc: bool, ghost k: nat, ghost bs: seq<Block>, ghost xs: seq<Block>)
    returns (r: int)
    requires h.Valid() && k < |bs| && bs[k].free && bs[k].addr == bp
    requires RingInv(h.Mem(), bs, xs, Freed(bs[First(bs, k)..Past(bs, k)]))
    requires (!prevAlloc <==> k > 0 && bs[k - 1].free) && (!nextAlloc <==> k + 1 < |bs| && bs[k + 1].free)
    modifies h.cells
    ensures RingInv(h.Mem(), Release(bs, k), xs, {Merged(bs, k)}) && r == Merged(bs, k).addr
    ensures Preserved(old(h.Mem()), h.Mem(), bs, Release(bs, k), {})
  {
    hide RingInv, Preserved, Tiles, Layout, Freed, Merged, Boundary;
    ghost var m, lo, hi, b := h.Mem(), First(bs, k), Past(bs, k), Merged(bs, k);
    InvParts(m, bs, xs, Freed(bs[lo..hi]));
    Joined(Ring, m, bs, k);
    MergedLarge(m, bs, k);
    Retagged(m, bs, xs, lo, hi, b, {});
    r := PutMerged(h, bp, prevAlloc, nextAlloc, k, bs);
    if prevAlloc && nextAlloc {
      AlreadyMerged(bs, k);
      AlreadyFreed(bs, k);
      PreservedRefl(Ring, m, bs, {});
    }
  }

  /** `coalesce`: a free block outside the ring merges with its free neighbours and enters the ring. */
  method Coalesce(h: Memory, bp: int, ghost k: nat, ghost bs: seq<Block>, ghost xs: seq<Block>)
    returns (r: int, ghost xs': seq<Block>)
    requires h.Valid() && k < |bs| && bs[k].free && bs[k].addr == bp && RingInv(h.Mem(), bs, xs, {bs[k]})
    modifies h.cells
    ensures RingInv(h.Mem(), Release(bs, k), xs', {}) && r == Merged(bs, k).addr && xs' == RingAfter(xs, bs, k)
    ensures Preserved(old(h.Mem()), h.Mem(), bs, Release(bs, k), {})
  {
    hide RingInv, Preserved, Tiles, Layout, Freed, Masked, Merged, Aligned, TagWord, Release;
    ghost var m, rs, b := h.Mem(), Release(bs, k), Merged(bs, k);
    InvParts(m, bs, xs, {bs[k]});
    Around(Ring, m, bs, k);
    MergedIn(bs, k);
    var prev, next := bp - Masked(h.Get(bp - 8)), bp + Masked(h.Get(bp - 4));
    var prevAlloc := h.Get(prev + Masked(h.Get(prev - 4)) - 8) % 2 == 1;
    var nextAlloc := h.Get(next - 4) % 2 == 1;
    xs' := LeaveRing(h, prev, next, prevAlloc, nextAlloc, k, bs, xs);
    ghost var m2 := h.Mem();
    r := PutJoined(h, bp, prevAlloc, nextAlloc, k, bs, xs');
    ghost var m3 := h.Mem();
    PreservedTrans(m, m2, m3, bs, bs, rs, {});
    ListAdd(h, r, b, rs, xs');
    PreservedTrans(m, m3, h.Mem(), bs, rs, rs, {});
    xs' := [b] + xs';
  }

  lemma AlreadyFreed(bs: seq<Block>, k: nat)
    requires k < |bs| && bs[k].free && !(k > 0 && bs[k - 1].free) && !(k + 1 < |bs| && bs[k + 1].free)
    ensures First(bs, k) == k && Past(bs, k) == k + 1 && Freed(bs[k..k + 1]) == {bs[k]} && Merged(bs, k) == bs[k]
  {
    assert bs[k..k + 1] == [bs[k]];
  }

  lemma MergedLarge(m: seq<int>, bs: seq<Block>, k: nat)
    requires Layout(Ring, m, bs) && k < |bs|
    ensures Merged(bs, k).size >= LEAST && Merged(bs, k).free
  {
    TagsAt(Ring, m, bs, k);
    NextFooter(m, bs, k);
  }

  // ---------- find_fit, place, extend_heap ----------

  /** `b` is the first block of the ring with at least `need` bytes. */
  ghost predicate FirstFit(xs: seq<Block>, b: Block, need: int) {
    exists i :: 0 <= i < |xs| && xs[i] == b && b.size >= need && forall j :: 0 <= j < i ==> xs[j].size < need
  }

  /** `find_fit`: walk the ring until a block fits or the sentinel, which is marked as allocated, comes back. */
  method FindFit(h: Memory, asize: int, ghost bs: seq<Block>, ghost xs: seq<Block>) returns (p: int, ghost b: Block)
    requires h.Valid() && RingInv(h.Mem(), bs, xs, {})
    ensures p == NULL <==> !SomeFit(bs, asize)
    ensures p != NULL ==> FirstFit(xs, b, asize) && b in bs && b.free && b.addr == p
  {
    hide RingInv, Node, Circle, Masked, Aligned;
    ghost var m := h.Mem();
    ghost var i := 0;
    InvParts(m, bs, xs, {});
    RingWords(m, xs);
    RingReads(m, bs, xs, i);
    p, b := h.Get(SENTINEL + 4), Block(0, 0, true);
    while h.Get(p - 4) % 2 == 0
      invariant 0 <= i <= |xs| && p == Node(xs, i + 1) && 8 <= p && p + 8 <= h.brk && Boundary(p)
      invariant (h.Get(p - 4) % 2 == 0 <==> i < |xs|) && h.Get(p + 4) == (if i < |xs| then Node(xs, i + 2) else Node(xs, 1))
      invariant i < |xs| ==> xs[i].addr == p && Masked(h.Get(p - 4)) == xs[i].size && xs[i] in bs && xs[i].free
      invariant forall j :: 0 <= j < i ==> xs[j].size < asize
      decreases |xs| - i
    {
      if asize <= Masked(h.Get(p - 4)) {
        b := xs[i];
        return;
      }
      i := i + 1;
      RingReads(m, bs, xs, i);
      p := h.Get(p + 4);
    }
    NoneFits(bs, xs, asize);
    p := NULL;
  }

  lemma RingReads(m: seq<int>, bs: seq<Block>, xs: seq<Block>, i: nat)
    requires RingInv(m, bs, xs, {}) && i <= |xs|
    ensures var p := Node(xs, i + 1);
      && 8 <= p && p + 8 <= |m| && Boundary(p) && (m[p - 4] % 2 == 0 <==> i < |xs|)
      && m[p + 4] == (if i < |xs| then Node(xs, i + 2) else Node(xs, 1))
      && (i < |xs| ==> xs[i].addr == p && Masked(m[p - 4]) == xs[i].size && xs[i] in bs && xs[i].free)
  {
    if i < |xs| {
      assert Tied(m, xs, i + 1) && xs[i] in xs;
      BlocksApart(bs, xs[i], xs[i], 24, |m|);
      assert Tagged(Ring, m, xs[i]);
      TagBits(Ring, xs[i]);
    } else {
      assert Tied(m, xs, 0);
    }
  }

  lemma NoneFits(bs: seq<Block>, xs: seq<Block>, asize: int)
    requires Members(bs, xs, {}) && forall j :: 0 <= j < |xs| ==> xs[j].size < asize
    ensures !SomeFit(bs, asize)
  {
  }

  lemma SplitInv(m: seq<int>, bs: seq<Block>, xs: seq<Block>, k: nat, x: Block, y: Block)
    requires k < |bs| && bs[k].free && RingInv(m, bs, xs, {bs[k]})
    requires x.addr == bs[k].addr && y.addr == x.addr + x.size && x.size + y.size == bs[k].size && x.free != y.free
    requires x.size >= LEAST && y.size >= LEAST && x.size % 8 == 0
    ensures BASE <= x.addr && y.addr + y.size <= |m| && y.size % 8 == 0
    ensures Boundary(x.addr) && Boundary(y.addr) && Boundary(y.addr + y.size)
    ensures RingInv(SplitTags(Ring, m, x, y), Splice(bs, k, k + 1, [x, y]), xs, {if x.free then x else y})
    ensures Preserved(m, SplitTags(Ring, m, x, y), bs, Splice(bs, k, k + 1, [x, y]), {})
  {
    hide RingInv, Preserved, Layout, Tiles, OnlyRegion, Tagged, TagWord, SplitTags;
    InvParts(m, bs, xs, {bs[k]});
    SplitWords(Ring, m, bs, k, x, y);
    assert Freed([x, y]) == {if x.free then x else y};
    assert bs[k..k + 1] == [bs[k]];
    SpliceInv(m, SplitTags(Ring, m, x, y), bs, xs, k, k + 1, [x, y], {});
  }

  /** The low end of a block that has left the ring is allocated, the rest enters the ring. */
  method TakeLow(h: Memory, bp: int, fsize: int, asize: int, ghost k: nat, ghost bs: seq<Block>, ghost xs: seq<Block>)
    returns (ghost xs': seq<Block>)
    requires h.Valid() && k < |bs| && bs[k] == Block(bp, fsize, true) && RingInv(h.Mem(), bs, xs, {bs[k]})
    requires LEAST <= asize && asize + LEAST <= fsize && asize % 8 == 0
    modifies h.cells
    ensures RingInv(h.Mem(), Place(bs, k, asize, true), xs', {}) && xs' == [Block(bp + asize, fsize - asize, true)] + xs
    ensures Preserved(old(h.Mem()), h.Mem(), bs, Place(bs, k, asize, true), {})
  {
    hide RingInv, Preserved, Tiles, Layout, Freed, Masked, Aligned;
    ghost var m1, cs, x, y := h.Mem(), Place(bs, k, asize, true), Block(bp, asize, false), Block(bp + asize, fsize - asize, true);
    SplitInv(m1, bs, xs, k, x, y);
    TagBits(Ring, x);
    TagBits(Ring, y);
    PutTags(h, bp, asize + 1);
    var p := bp + Masked(h.Get(bp - 4));
    PutTags(h, p, fsize - asize);
    ghost var m2 := h.Mem();
    SpliceMembers(bs, k, k + 1, [x, y], y);
    ListAdd(h, p, y, cs, xs);
    xs' := [y] + xs;
    PreservedTrans(m1, m2, h.Mem(), bs, cs, cs, {});
  }

  /** All of a block that has left the ring is allocated. */
  lemma Whole(m: seq<int>, bs: seq<Block>, xs: seq<Block>, k: nat, need: int)
    requires k < |bs| && bs[k].free && RingInv(m, bs, xs, {bs[k]}) && bs[k].size < need + 16
    ensures BASE <= bs[k].addr && bs[k].addr + bs[k].size <= |m| && bs[k].size >= LEAST
    ensures Boundary(bs[k].addr) && Boundary(bs[k].addr + bs[k].size) && Masked(bs[k].size + 1) == bs[k].size
    ensures var m' := m[bs[k].addr - 4 := bs[k].size + 1][bs[k].addr + bs[k].size - 8 := bs[k].size + 1];
      RingInv(m', Place(bs, k, need, true), xs, {}) && Preserved(m, m', bs, Place(bs, k, need, true), {})
  {
    hide RingInv, Preserved, Layout, Tiles;
    var u := Block(bs[k].addr, bs[k].size, false);
    InvParts(m, bs, xs, {bs[k]});
    WholeWords(Ring, m, bs, k, false);
    TagBits(Ring, u);
    assert bs[k..k + 1] == [bs[k]];
    Retagged(m, bs, xs, k, k + 1, u, {});
  }

  /** `place`: allocate the low end of a block of the ring. */
  method PlaceBlock(h: Memory, bp: int, asize: int, ghost k: nat, ghost bs: seq<Block>, ghost xs: seq<Block>)
    returns (ghost xs': seq<Block>)
    requires h.Valid() && RingInv(h.Mem(), bs, xs, {})
    requires k < |bs| && bs[k].free && bs[k].addr == bp && LEAST <= asize <= bs[k].size && asize % 8 == 0
    modifies h.cells
    ensures RingInv(h.Mem(), Place(bs, k, asize, true), xs', {}) && xs' == RingTaken(xs, bs[k], asize)
    ensures Preserved(old(h.Mem()), h.Mem(), bs, Place(bs, k, asize, true), {})
  {
    hide RingInv, Preserved, Tiles, Layout, Freed, Masked, Aligned, Place, Rest;
    ghost var m, b, cs := h.Mem(), bs[k], Place(bs, k, asize, true);
    InvParts(m, bs, xs, {});
    TagsAt(Ring, m, bs, k);
    var freeBlock := Masked(h.Get(bp - 4));
    xs' := ListRemove(h, bp, b, bs, xs, {});
    ghost var m1 := h.Mem();
    assert {} + {b} == {b};
    InvParts(m1, bs, xs', {b});
    if freeBlock - asize >= 16 {
      xs' := TakeLow(h, bp, freeBlock, asize, k, bs, xs');
    } else {
      Whole(m1, bs, xs', k, asize);
      PutTags(h, bp, freeBlock + 1);
    }
    PreservedTrans(m, m1, h.Mem(), bs, bs, cs, {});
  }

  /** `extend_heap`: `words` words more, rounded up to an even number, as one free block. */
  method ExtendHeap(h: Memory, words: int, ghost bs: seq<Block>, ghost xs: seq<Block>)
    returns (r: int, ghost n: int, ghost xs': seq<Block>)
    requires h.Valid() && RingInv(h.Mem(), bs, xs, {}) && 4 <= words
    modifies h`brk, h.cells
    ensures h.Valid() && n == (words + 1) / 2 * 8
    ensures r == NULL <==> old(h.brk) + n > h.cells.Length
    ensures r == NULL ==> h.brk == old(h.brk) && h.Mem() == old(h.Mem()) && xs' == xs
    ensures r != NULL ==>
      && h.brk == old(h.brk) + n && RingInv(h.Mem(), Extended(bs, old(h.brk), n), xs', {})
      && r == GrowStart(bs, old(h.brk)) && Preserved(old(h.Mem()), h.Mem(), bs, Extended(bs, old(h.brk), n), {})
      && xs' == RingAfter(xs, bs + [Block(old(h.brk), n, true)], |bs|)
  {
    hide RingInv, Preserved, Tiles, Layout, Release, Masked, Aligned;
    var size := if words % 2 != 0 then (words + 1) * 4 else words * 4;
    n, xs' := size, xs;
    ghost var m := h.Mem();
    InvParts(m, bs, xs, {});
    Eighth(size, (words + 1) / 2);
    StartAligned(Ring, m, bs, |bs|);
    MultipleSum(|m|, size);
    var bp := h.Sbrk(size);
    if bp == FAILED {
      return NULL, n, xs;
    }
    TagBits(Ring, Block(bp, size, true));
    PutTags(h, bp, size);
    h.Put(bp + Masked(h.Get(bp - 4)) - 4, 1);
    ghost var m1, b := h.Mem(), Block(bp, size, true);
    Grown(m, m1, bs, xs, size);
    assert (bs + [b])[|bs|] == b;
    r, xs' := Coalesce(h, bp, |bs|, bs + [b], xs);
    MergedStart(bs, b);
    PreservedTrans(m, m1, h.Mem(), bs, bs + [b], Extended(bs, |m|, size), {});
    GrowStartWhere(bs, BASE, |m|);
  }

  // ---------- free ----------

  lemma Unlisted(m: seq<int>, bs: seq<Block>, xs: seq<Block>, k: nat)
    requires k < |bs| && !bs[k].free && RingInv(m, bs, xs, {})
    ensures BASE <= bs[k].addr && bs[k].addr + bs[k].size <= |m| && bs[k].size >= LEAST && bs[k].size % 8 == 0
    ensures var b := Block(bs[k].addr, bs[k].size, true);
      var m' := m[b.addr - 4 := b.size][b.addr + b.size - 8 := b.size];
      && RingInv(m', Splice(bs, k, k + 1, [b]), xs, {b}) && Preserved(m, m', bs, Splice(bs, k, k + 1, [b]), {bs[k]})
  {
    hide RingInv, Preserved, Layout, Tiles;
    InvParts(m, bs, xs, {});
    WholeWords(Ring, m, bs, k, true);
    assert bs[k..k + 1] == [bs[k]];
    Retagged(m, bs, xs, k, k + 1, Block(bs[k].addr, bs[k].size, true), {bs[k]});
  }

  /** `mm_free` on the block at `ptr`. */
  method FreeBlock(h: Memory, ptr: int, ghost k: nat, ghost bs: seq<Block>, ghost xs: seq<Block>)
    returns (ghost xs': seq<Block>)
    requires h.Valid() && RingInv(h.Mem(), bs, xs, {}) && k < |bs| && !bs[k].free && bs[k].addr == ptr
    modifies h.cells
    ensures RingInv(h.Mem(), Release(bs, k), xs', {}) && xs' == RingAfter(xs, bs, k)
    ensures Preserved(old(h.Mem()), h.Mem(), bs, Release(bs, k), {bs[k]})
  {
    hide RingInv, Preserved, Tiles, Layout, Masked, Release, Aligned;
    ghost var m := h.Mem();
    InvParts(m, bs, xs, {});
    TagsAt(Ring, m, bs, k);
    Unlisted(m, bs, xs, k);
    ReleaseFreed(bs, k);
    var size := Masked(h.Get(ptr - 4));
    MaskedSize(size);
    PutTags(h, ptr, size);
    ghost var m1, b, bs1, r := h.Mem(), Block(ptr, size, true), Splice(bs, k, k + 1, [Block(ptr, size, true)]), 0;
    r, xs' := Coalesce(h, ptr, k, bs1, xs);
    RingAfterFreed(xs, bs, k);
    PreservedMore(m1, h.Mem(), bs1, Release(bs, k), {bs[k]});
    PreservedTrans(m, m1, h.Mem(), bs, bs1, Release(bs, k), {bs[k]});
  }

  // ---------- the allocator ----------

  /** A heap between calls. */
  ghost predicate Settled(m: seq<int>, bs: seq<Block>, xs: seq<Block>) {
    RingInv(m, bs, xs, {}) && Coalesced(bs)
  }

  lemma SettledWellFormed(m: seq<int>, bs: seq<Block>, xs: seq<Block>)
    requires Settled(m, bs, xs)
    ensures WellFormed(bs, BASE, |m|, LEAST) && BASE <= |m| && RingInv(m, bs, xs, {}) && Layout(Ring, m, bs)
    ensures Tiles(bs, BASE, |m|) && Coalesced(bs)
  {
    forall b | b in bs ensures b.size >= LEAST {
      assert Tagged(Ring, m, b);
    }
  }

  lemma PlaceSettled(m: seq<int>, bs: seq<Block>, xs: seq<Block>, k: nat, need: int)
    requires k < |bs| && bs[k].free && Coalesced(bs) && RingInv(m, Place(bs, k, need, true), xs, {})
    ensures Settled(m, Place(bs, k, need, true), xs) && Placed(bs[k], need, true) in Place(bs, k, need, true)
  {
    hide RingInv;
    PlaceCoalesced(bs, k, need, true);
    assert Split(bs[k], need, true)[0] == Placed(bs[k], need, true);
    SpliceMembers(bs, k, k + 1, Split(bs[k], need, true), Placed(bs[k], need, true));
  }

  lemma FreeSettled(m: seq<int>, bs: seq<Block>, xs: seq<Block>, k: nat)
    requires WellFormed(bs, BASE, |m|, LEAST) && k < |bs| && !bs[k].free && RingInv(m, Release(bs, k), xs, {})
    ensures Settled(m, Release(bs, k), xs)
  {
    hide RingInv;
    ReleaseWellFormed(bs, k, BASE, |m|, LEAST);
  }

  /** The payload of an allocated block matters to nobody but its owner. */
  lemma PayloadInv(m: seq<int>, m': seq<int>, bs: seq<Block>, xs: seq<Block>, b: Block)
    requires Settled(m, bs, xs) && b in bs && !b.free && OnlyPayload(m, m', b)
    ensures Settled(m', bs, xs) && Preserved(m, m', bs, bs, {b})
  {
    hide Circle, Coalesced, Tiles, SameLinks, Preserved;
    PayloadLayout(Ring, m, m', bs, b);
    assert Tagged(Ring, m, b);
    CircleFrame(m, m', xs);
  }

  lemma FitIndex(bs: seq<Block>, b: Block) returns (k: nat)
    requires b in bs
    ensures k < |bs| && bs[k] == b
  {
    k :| 0 <= k < |bs| && bs[k] == b;
  }

  lemma FirstFits(xs: seq<Block>, b: Block, need: int)
    requires FirstFit(xs, b, need)
    ensures b.size >= need
  {
  }

  /** The heap that `mm_init` has written before it first grows. */
  lemma EmptyHeap(m: seq<int>)
    requires |m| == BASE && m[4] == 17 && m[12] == 8 && m[16] == 17 && m[20] == 1
    ensures RingInv(m, [], [], {})
  {
  }

  /** The ring in which `mm_malloc` looks for its block: the old one, or with the new block in front. */
  ghost function RingSupply(xs: seq<Block>, bs: seq<Block>, to: int, need: int): seq<Block> {
    if SomeFit(bs, need) then xs else RingAfter(xs, bs + [Block(to, Max(need, 4096), true)], |bs|)
  }

  /** The `n` bytes at `p` lie in no allocated block. */
  ghost predicate Unused(bs: seq<Block>, p: int, n: int) {
    forall b :: b in bs && !b.free ==> b.addr + b.size <= p || p + n <= b.addr
  }

  class RingAllocator {
    const heap: Memory
    /** The partition of the heap and the contents of the ring. */
    ghost var blocks: seq<Block>
    ghost var ring: seq<Block>

    ghost predicate Valid()
      reads this, heap, heap.cells
    {
      heap.Valid() && Settled(heap.Mem(), blocks, ring)
    }

    constructor (maxHeap: nat)
      requires maxHeap <= INT_MAX
      ensures heap.Valid() && heap.brk == 0 && heap.cells.Length == maxHeap
      ensures fresh(heap) && fresh(heap.cells)
    {
      heap := new Memory(maxHeap);
      blocks, ring := [], [];
    }

    /** `mm_init` on an empty heap. */
    method Init() returns (r: int)
      requires heap.Valid() && heap.brk == 0
      modifies this, heap`brk, heap.cells
      ensures r == 0 || r == -1
      ensures r == 0 <==> heap.cells.Length >= 4120
      ensures r == 0 ==> Valid() && blocks == [Block(24, 4096, true)] && heap.brk == 4120
    {
      hide RingInv, Preserved;
      var p := heap.Sbrk(24);
      if p == FAILED {
        return -1;
      }
      heap.Put(p, 0);
      heap.Put(p + 4, 16 + 1);
      heap.Put(p + 8, p + 12);
      heap.Put(p + 12, p + 8);
      heap.Put(p + 16, 16 + 1);
      heap.Put(p + 20, 0 + 1);
      EmptyHeap(heap.Mem());
      ghost var n;
      var bp;
      blocks, ring := [], [];
      bp, n, ring := ExtendHeap(heap, CHUNKSIZE / 4, [], []);
      if bp == NULL {
        return -1;
      }
      blocks := Extended([], BASE, n);
      ExtendedLast([], BASE, BASE, n);
      return 0;
    }

    /** The search in `mm_malloc`: a block that fits, if there is none after growing the heap. */
    method Obtain(asize: int) returns (p: int, ghost k: nat)
      requires Valid() && LEAST <= asize && asize % 8 == 0
      modifies this, heap`brk, heap.cells
      ensures heap.Valid()
      ensures p == NULL <==> !old(SomeFit(blocks, asize)) && old(heap.brk) + Max(asize, 4096) > heap.cells.Length
      ensures p == NULL ==> blocks == old(blocks) && ring == old(ring) && heap.Mem() == old(heap.Mem())
      ensures p != NULL ==>
        && blocks == old(Supply(blocks, heap.brk, asize)) && RingInv(heap.Mem(), blocks, ring, {}) && Coalesced(blocks)
        && k < |blocks| && blocks[k].free && blocks[k].size >= asize && p == blocks[k].addr
        && (old(SomeFit(blocks, asize)) ==> FirstFit(old(ring), blocks[k], asize))
        && ring == old(RingSupply(ring, blocks, heap.brk, asize))
        && heap.brk == old(heap.brk) + (if old(SomeFit(blocks, asize)) then 0 else Max(asize, 4096))
      ensures Preserved(old(heap.Mem()), heap.Mem(), old(blocks), blocks, {})
    {
      hide RingInv, Preserved, SomeFit, FirstFit, Smallest, Extended, Coalesced, Tiles, Layout, Settled, WellFormed, RingAfter;
      ghost var m, bs, to := heap.Mem(), blocks, heap.brk;
      k := 0;
      SettledWellFormed(m, bs, ring);
      PreservedRefl(Ring, m, bs, {});
      ghost var b;
      p, b := FindFit(heap, asize, bs, ring);
      if p != NULL {
        k := FitIndex(bs, b);
        FirstFits(ring, b, asize);
      } else {
        var extendSize := Max(asize, CHUNKSIZE);
        ChunkWords(asize);
        ghost var n;
        p, n, ring := ExtendHeap(heap, extendSize / 4, bs, ring);
        if p != NULL {
          k := GrownFit(bs, BASE, to, asize);
          blocks := Extended(bs, to, n);
          SmallestFits(blocks, blocks[k], asize);
        }
      }
    }

    /** `mm_malloc`: the first block of the ring that fits; if there is none, the heap grows. */
    method Malloc(size: int) returns (p: int, ghost k: nat)
      requires Valid() && 0 <= size <= LARGEST
      modifies this, heap`brk, heap.cells
      ensures Valid()
      ensures LeastSize(Adjusted(size), size, 16)
      ensures var full := old(heap.brk) + Max(Adjusted(size), 4096) > heap.cells.Length;
        p == NULL <==> (size == 0 || (!old(SomeFit(blocks, Adjusted(size))) && full))
      ensures p == NULL ==> blocks == old(blocks) && ring == old(ring) && heap.Mem() == old(heap.Mem())
      ensures p != NULL ==>
        var need, base := Adjusted(size), old(Supply(blocks, heap.brk, Adjusted(size)));
        && k < |base| && base[k].free && base[k].size >= need && p == base[k].addr
        && blocks == Place(base, k, need, true) && Placed(base[k], need, true) in blocks
        && (old(SomeFit(blocks, need)) ==> FirstFit(old(ring), base[k], need))
        && heap.brk == old(heap.brk) + (if old(SomeFit(blocks, need)) then 0 else Max(need, 4096))
        && Placed(base[k], need, true) == Block(p, if base[k].size < need + 16 then base[k].size else need, false)
        && Unused(old(blocks), p, Placed(base[k], need, true).size)
        && ring == RingTaken(old(RingSupply(ring, blocks, heap.brk, need)), base[k], need)
      ensures Preserved(old(heap.Mem()), heap.Mem(), old(blocks), blocks, {})
    {
      hide RingInv, Preserved, SomeFit, FirstFit, Smallest, Extended, Coalesced, Tiles, Layout, Place, Settled, WellFormed, Placed,
        RingTaken, RingAfter, RingSupply, Supply, Max, Boundary;
      ghost var m, bs := heap.Mem(), blocks;
      k := 0;
      SettledWellFormed(m, bs, ring);
      PreservedRefl(Ring, m, bs, {});
      if size == 0 {
        return NULL, k;
      }
      AdjustedFits(size);
      var asize := if size <= 8 then 16 else (size + 8 + 7) % TWO32 / 8 * 8;
      p, k := Obtain(asize);
      if p == NULL {
        return NULL, k;
      }
      ghost var m1, base := heap.Mem(), blocks;
      InvParts(m1, base, ring, {});
      StillApart(m, m1, bs, base, k, asize);
      ring := PlaceBlock(heap, p, asize, k, base, ring);
      blocks := Place(base, k, asize, true);
      PlaceSettled(heap.Mem(), base, ring, k, asize);
      PlacedLow(base[k], asize);
      PreservedTrans(m, m1, heap.Mem(), bs, base, blocks, {});
    }

    /** `mm_free`: the block merges with its free neighbours. */
    method Free(ptr: int)
      requires Valid() && exists b :: b in blocks && b.addr == ptr && !b.free
      modifies this, heap.cells
      ensures Valid() && heap.brk == old(heap.brk)
      ensures var k := old(IndexOf(blocks, ptr));
        && !old(blocks)[k].free && blocks == Release(old(blocks), k) && ring == RingAfter(old(ring), old(blocks), k)
        && Preserved(old(heap.Mem()), heap.Mem(), old(blocks), blocks, {old(blocks)[k]})
    {
      hide RingInv, Preserved, Settled, WellFormed, Layout, Release, Tiles;
      ghost var m, bs, k := heap.Mem(), blocks, IndexOf(blocks, ptr);
      SettledWellFormed(m, bs, ring);
      ghost var b :| b in bs && b.addr == ptr && !b.free;
      OneAtAddress(bs, BASE, |m|, b);
      ring := FreeBlock(heap, ptr, k, bs, ring);
      blocks := Release(bs, k);
      FreeSettled(heap.Mem(), bs, ring, k);
    }

    /** The owner of an allocated block stores a word in its payload. */
    method Store(a: int, v: int, ghost b: Block)
      requires Valid() && b in blocks && !b.free && b.addr <= a && Aligned(a) && a + 4 <= b.addr + b.size - 8
      modifies heap.cells
      ensures Valid() && heap.Mem() == old(heap.Mem())[a := v]
      ensures Preserved(old(heap.Mem()), heap.Mem(), blocks, blocks, {b})
    {
      BlockWhere(heap.Mem(), blocks, ring, b);
      PayloadInv(heap.Mem(), heap.Mem()[a := v], blocks, ring, b);
      heap.Put(a, v);
    }

    /** The end of `mm_realloc`: copy as much as fits, then free the old block. */
    method Move(ptr: int, p: int, size: int, ghost o: Block, ghost n: Block)
      requires Valid() && o in blocks && n in blocks && o != n && !o.free && !n.free
      requires o.addr == ptr && n.addr == p && 0 <= size && size + 8 <= n.size
      modifies this, heap.cells
      ensures Valid() && heap.brk == old(heap.brk)
      ensures var k := IndexOf(old(blocks), ptr);
        blocks == Release(old(blocks), k) && ring == RingAfter(old(ring), old(blocks), k)
      ensures Moved(old(heap.Mem()), heap.Mem(), old(blocks), blocks, o, n, Moving(o, size))
    {
      hide RingInv, Preserved, Settled, WellFormed, Layout, Release, Tiles, Masked, Coalesced, OnlyPayload, SamePayload, Moved, Aligned;
      ghost var m1, bs1 := heap.Mem(), blocks;
      BlockWhere(m1, bs1, ring, o);
      BlockWhere(m1, bs1, ring, n);
      BlocksApart(bs1, o, n, BASE, |m1|);
      OneAtAddress(bs1, BASE, |m1|, o);
      var copySize := Masked(heap.Get(ptr - 4));
      if size < copySize {
        copySize := size;
      }
      heap.Copy(p, ptr, copySize);
      ghost var m2 := heap.Mem();
      CopiedPayload(m1, m2, n, ptr, copySize);
      PayloadInv(m1, m2, bs1, ring, n);
      Free(ptr);
      CopiedThenFreed(m1, m2, heap.Mem(), bs1, blocks, o, n, copySize, size);
    }

    /** `mm_realloc`: a new block with the old contents; the old block is freed. Nothing happens if there is no new block. */
    method Realloc(ptr: int, size: int) returns (p: int, ghost k: nat)
      requires Valid() && 0 <= size <= LARGEST && exists b :: b in blocks && b.addr == ptr && !b.free
      modifies this, heap`brk, heap.cells
      ensures Valid()
      ensures LeastSize(Adjusted(size), size, 16)
      ensures var full := old(heap.brk) + Max(Adjusted(size), 4096) > heap.cells.Length;
        p == NULL <==> (size == 0 || (!old(SomeFit(blocks, Adjusted(size))) && full))
      ensures p == NULL ==> blocks == old(blocks) && ring == old(ring) && heap.Mem() == old(heap.Mem())
      ensures p != NULL ==>
        var need, base, o := Adjusted(size), old(Supply(blocks, heap.brk, Adjusted(size))), old(blocks[IndexOf(blocks, ptr)]);
        && k < |base| && base[k].free && base[k].size >= need && p == base[k].addr && size + 8 <= Placed(base[k], need, true).size
        && o in Place(base, k, need, true) && blocks == Release(Place(base, k, need, true), IndexOf(Place(base, k, need, true), ptr))
        && Placed(base[k], need, true) !in old(blocks)
        && heap.brk == old(heap.brk) + (if old(SomeFit(blocks, need)) then 0 else Max(need, 4096))
        && ring == RingAfter(RingTaken(old(RingSupply(ring, blocks, heap.brk, need)), base[k], need),
             Place(base, k, need, true), IndexOf(Place(base, k, need, true), ptr))
        && Moved(old(heap.Mem()), heap.Mem(), old(blocks), blocks, o, Placed(base[k], need, true), Moving(o, size))
      ensures p != NULL ==>
        var room := old(blocks[IndexOf(blocks, ptr)]).size - 8;
        var c := if size < room then size else room;
        0 <= ptr && ptr + c <= old(heap.brk) && 0 < p && p + c <= heap.brk && heap.Mem()[p..p + c] == old(heap.Mem())[ptr..ptr + c]
    {
      hide RingInv, Preserved, Settled, WellFormed, Layout, Release, Tiles, SomeFit, FirstFit, Place, Placed,
        Extended, Masked, Coalesced, Adjusted, Supply, Moved, Moving, RingSupply, RingTaken, RingAfter, LeastSize, Max,
        IndexOf, SamePayload, Boundary, Aligned, Unused, Splice, Kept, GrowStart, EndsFree;
      ghost var m0, bs0, o := heap.Mem(), blocks, blocks[IndexOf(blocks, ptr)];
      ghost var b :| b in blocks && b.addr == ptr && !b.free;
      BlockWhere(m0, bs0, ring, b);
      OneAtAddress(bs0, BASE, |m0|, b);
      AdjustedFits(size);
      p, k := Malloc(size);
      if p == NULL {
        return p, k;
      }
      ghost var base := old(Supply(blocks, heap.brk, Adjusted(size)));
      ghost var m1, bs1, n := heap.Mem(), blocks, Placed(base[k], Adjusted(size), true);
      PlacedSize(base[k], Adjusted(size));
      KeptUsed(m0, m1, bs0, bs1, {}, o);
      UnusedNew(bs0, n);
      Move(ptr, p, size, o, n);
      MallocThenMoved(m0, m1, heap.Mem(), bs0, bs1, blocks, o, n, size);
      MovedPrefix(m0, heap.Mem(), bs0, blocks, o, n, size);
    }
  }

  /** Copying into the new block touches no other payload. */
  lemma CopiedPayload(m1: seq<int>, m2: seq<int>, n: Block, src: nat, copySize: nat)
    requires 0 <= n.addr && copySize + 8 <= n.size && n.addr + copySize <= |m1| && src + copySize <= |m1|
    requires |m1| == |m2| && forall x :: n.addr <= x < n.addr + copySize ==> m2[x] == m1[src + (x - n.addr)]
    requires forall x :: 0 <= x < |m1| && (x < n.addr || n.addr + copySize <= x) ==> m2[x] == m1[x]
    ensures OnlyPayload(m1, m2, n) && m2[n.addr..n.addr + copySize] == m1[src..src + copySize]
  {
  }

  /** How much of the payload of `o` is kept in a block for `size` bytes. */
  function Moving(o: Block, size: int): int {
    if size < o.size - 8 then size else o.size - 8
  }

  /** The first `c` bytes of `o` have moved to `n`; all other allocated blocks of `bs` are as before. */
  ghost predicate Moved(m: seq<int>, m': seq<int>, bs: seq<Block>, bs': seq<Block>, o: Block, n: Block, c: int) {
    && n in bs' && 0 <= c <= o.size - 8 && c <= n.size - 8
    && 0 <= o.addr && o.addr + c <= |m| && 0 <= n.addr && n.addr + c <= |m'|
    && m'[n.addr..n.addr + c] == m[o.addr..o.addr + c]
    && forall b :: b in bs && !b.free && b != o && b != n ==> b in bs' && SamePayload(m, m', b)
  }

  lemma MovedPrefix(m: seq<int>, m': seq<int>, bs: seq<Block>, bs': seq<Block>, o: Block, n: Block, size: int)
    requires Moved(m, m', bs, bs', o, n, Moving(o, size))
    ensures var c := if size < o.size - 8 then size else o.size - 8;
      && 0 <= c && 0 <= o.addr && o.addr + c <= |m| && 0 <= n.addr && n.addr + c <= |m'|
      && m'[n.addr..n.addr + c] == m[o.addr..o.addr + c]
  {
  }

  lemma CopiedThenFreed(m1: seq<int>, m2: seq<int>, m3: seq<int>, bs1: seq<Block>, bs3: seq<Block>,
      o: Block, n: Block, copySize: nat, size: nat)
    requires Preserved(m1, m2, bs1, bs1, {n}) && Preserved(m2, m3, bs1, bs3, {o})
    requires n in bs1 && !n.free && o != n && copySize == (if size < o.size then size else o.size) && size + 8 <= n.size && o.size >= 8
    requires 0 <= o.addr && o.addr + copySize <= |m1| && 0 <= n.addr && n.addr + copySize <= |m2|
    requires m2[n.addr..n.addr + copySize] == m1[o.addr..o.addr + copySize]
    ensures Moved(m1, m3, bs1, bs3, o, n, Moving(o, size))
  {
    var c := Moving(o, size);
    assert SamePayload(m2, m3, n);
    assert m2[n.addr..n.addr + c] == m2[n.addr..n.addr + copySize][..c];
    assert m1[o.addr..o.addr + c] == m1[o.addr..o.addr + copySize][..c];
    SameSlice(m2, m3, n.addr, c);
    forall b | b in bs1 && !b.free && b != o && b != n ensures b in bs3 && SamePayload(m1, m3, b) {
      assert SamePayload(m1, m2, b) && SamePayload(m2, m3, b);
    }
  }

  lemma MallocThenMoved(m0: seq<int>, m1: seq<int>, m3: seq<int>, bs0: seq<Block>, bs1: seq<Block>, bs3: seq<Block>,
      o: Block, n: Block, size: nat)
    requires Preserved(m0, m1, bs0, bs1, {}) && Moved(m1, m3, bs1, bs3, o, n, Moving(o, size)) && o in bs0 && !o.free
    ensures Moved(m0, m3, bs0, bs3, o, n, Moving(o, size))
  {
    hide Moving;
    assert SamePayload(m0, m1, o);
    SameSlice(m0, m1, o.addr, Moving(o, size));
    forall b | b in bs0 && !b.free && b != o && b != n ensures b in bs3 && SamePayload(m0, m3, b) {
      assert SamePayload(m0, m1, b) && SamePayload(m1, m3, b);
    }
  }

  lemma SameSlice(m: seq<int>, m': seq<int>, a: nat, c: nat)
    requires a + c <= |m| && a + c <= |m'| && forall x :: a <= x < a + c ==> m'[x] == m[x]
    ensures m'[a..a + c] == m[a..a + c]
  {
  }

  lemma BlockWhere(m: seq<int>, bs: seq<Block>, xs: seq<Block>, b: Block)
    requires Settled(m, bs, xs) && b in bs
    ensures BASE <= b.addr && LEAST <= b.size && b.addr + b.size <= |m| && Masked(m[b.addr - 4]) == b.size && Boundary(b.addr)
    ensures Tiles(bs, BASE, |m|)
  {
    assert Tagged(Ring, m, b);
    BlocksApart(bs, b, b, BASE, |m|);
    TagBits(Ring, b);
  }

  lemma PlacedSize(b: Block, need: int)
    requires LEAST <= need <= b.size
    ensures Placed(b, need, true).addr == b.addr && need <= Placed(b, need, true).size && !Placed(b, need, true).free
  {
  }

  lemma UnusedNew(bs: seq<Block>, b: Block)
    requires Unused(bs, b.addr, b.size) && b.size > 0 && !b.free
    ensures b !in bs
  {
  }

  lemma KeptUsed(m: seq<int>, m': seq<int>, bs: seq<Block>, bs': seq<Block>, gone: set<Block>, b: Block)
    requires Preserved(m, m', bs, bs', gone) && b in bs && !b.free && b !in gone
    ensures b in bs' && SamePayload(m, m', b)
  {
  }

  lemma StillApart(m: seq<int>, m1: seq<int>, bs: seq<Block>, base: seq<Block>, k: nat, need: int)
    requires Tiles(base, BASE, |m1|) && Preserved(m, m1, bs, base, {})
    requires k < |base| && base[k].free && LEAST <= need <= base[k].size
    ensures Unused(bs, base[k].addr, Placed(base[k], need, true).size)
  {
    hide Tiles;
    forall b | b in bs && !b.free
      ensures b.addr + b.size <= base[k].addr || base[k].addr + Placed(base[k], need, true).size <= b.addr
    {
      PlacedFresh(base, k, need, true, BASE, |m1|, b);
    }
  }
}
