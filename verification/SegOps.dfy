/** `pop_from_seglist`, `push_in_seglist` and `find_fit` of `mm.c`. */
module SegOps {
  import opened Common
  import opened Memlib
  import opened Blocks
  import opened Fits
  import opened Tags
  import opened SegLists
  import opened SegHeap
  import opened SegMoves

  // ---------- pop ----------

  /** The four cases of `pop_from_seglist`. */
  method PopWords(h: Memory, bp: int, cell: int, ghost xs: seq<Block>, ghost k: nat)
    requires h.Valid() && k < |xs| && xs[k].addr == bp && InHeap(h.Mem(), xs[k])
    requires 0 <= cell && Aligned(cell) && cell + 4 <= LISTS_END <= h.brk
    requires (k > 0 ==> InHeap(h.Mem(), xs[k - 1])) && (k + 1 < |xs| ==> InHeap(h.Mem(), xs[k + 1]))
    requires (k > 0 ==> Away(xs[k], xs[k - 1])) && (k + 1 < |xs| ==> Away(xs[k], xs[k + 1]))
    requires h.Mem()[bp] == PredOf(Ceil, xs, k) && h.Mem()[bp + 4] == SuccOf(Ceil, xs, k)
    modifies h.cells
    ensures h.Mem() == old(Popped(Ceil, h.Mem(), cell, xs, k))
  {
    hide Aligned;
    var pred, succ := h.Get(bp), h.Get(bp + 4);
    if pred == NULL && succ == NULL {
      h.Put(cell, NULL);
    } else if pred == NULL {
      h.Put(cell, succ);
      h.Put(succ, NULL);
    } else if succ == NULL {
      h.Put(pred + 4, NULL);
    } else {
      h.Put(pred + 4, succ);
      h.Put(succ, pred);
    }
  }

  /** `pop_from_seglist`: the block leaves its list. */
  method PopFromSeglist(h: Memory, bp: int, ghost b: Block, ghost bs: seq<Block>, ghost ls: seq<seq<Block>>, ghost out: set<Block>)
    returns (ghost ls': seq<seq<Block>>)
    requires h.Valid() && SegInv(Ceil, h.Mem(), bs, ls, out) && b in bs && b.free && b !in out && b.addr == bp
    modifies h.cells
    ensures SegInv(Ceil, h.Mem(), bs, ls', out + {b})
    ensures OnlyLinks(Ceil, old(h.Mem()), h.Mem(), bs) && b.size >= 0 && LeavesList(Ceil, ls, ls', b)
  {
    hide SegInv, OnlyLinks, Chain, Popped, PredOf, SuccOf, CeilLog, Masked, TagWord, Aligned;
    ghost var m := h.Mem();
    ghost var c', k := Whereabouts(Ceil, m, bs, ls, out, b);
    PopReady(Ceil, m, 4 * c', ls[c'], k);
    PoppedInv(Ceil, m, bs, ls, out, b, c', k);
    TagBits(Ceil, b);
    var c := CeilPow2Idx(Masked(h.Get(bp - 4)));
    PopWords(h, bp, 4 * c, ls[c], k);
    ls' := ls[c := Without(ls[c], k)];
  }

  // ---------- push ----------

  /** The search loop of `push_in_seglist`, when the block does not go to the front. */
  method PushPosition(h: Memory, head: int, asize: int, ghost cell: int, ghost xs: seq<Block>)
    returns (finder: int, ghost k: nat)
    requires h.Valid() && Chain(Ceil, h.Mem(), cell, xs) && xs != [] && head == xs[0].addr && xs[0].size <= asize
    ensures 0 < k <= |xs| && finder == xs[k - 1].addr && Spot(Ceil, xs, asize, k)
    ensures forall i :: 0 <= i < k ==> xs[i].size <= asize
    ensures forall i :: k <= i < |xs| ==> asize <= xs[i].size
  {
    hide Chain, Aligned;
    finder, k := head, 1;
    PushReads(h.Mem(), cell, xs, 0);
    while h.Get(finder + 4) != NULL && Masked(h.Get(h.Get(finder + 4) - 4)) < asize
      invariant 0 < k <= |xs| && finder == xs[k - 1].addr
      invariant InHeap(h.Mem(), xs[k - 1]) && h.Mem()[finder + 4] == SuccOf(Ceil, xs, k - 1)
      invariant k < |xs| ==> InHeap(h.Mem(), xs[k]) && Masked(h.Mem()[xs[k].addr - 4]) == xs[k].size
      invariant forall i :: 0 < i < k ==> xs[i].size < asize
      decreases |xs| - k
    {
      finder := h.Get(finder + 4);
      PushReads(h.Mem(), cell, xs, k);
      k := k + 1;
    }
    PushReads(h.Mem(), cell, xs, k - 1);
  }

  lemma PushReads(m: seq<int>, cell: int, xs: seq<Block>, i: nat)
    requires Chain(Ceil, m, cell, xs) && i < |xs|
    ensures InHeap(m, xs[i]) && m[xs[i].addr + 4] == SuccOf(Ceil, xs, i) && Masked(m[xs[i].addr - 4]) == xs[i].size
    ensures i + 1 < |xs| ==> InHeap(m, xs[i + 1]) && Masked(m[xs[i + 1].addr - 4]) == xs[i + 1].size
    ensures Ordered(Ceil, xs)
  {
    ChainLinked(Ceil, m, cell, xs, i);
    TagBits(Ceil, xs[i]);
    if i + 1 < |xs| {
      ChainLinked(Ceil, m, cell, xs, i + 1);
      TagBits(Ceil, xs[i + 1]);
    }
  }

  /** At the front, in an empty list or before the first block. */
  method PushHead(h: Memory, bp: int, head: int, cell: int, ghost xs: seq<Block>, ghost b: Block)
    requires h.Valid() && b.addr == bp && InHeap(h.Mem(), b) && 0 <= cell && Aligned(cell) && cell + 4 <= LISTS_END
    requires head == HeadOf(Ceil, xs) && (xs != [] ==> InHeap(h.Mem(), xs[0]) && Away(xs[0], b))
    modifies h.cells
    ensures h.Mem() == old(Pushed(Ceil, h.Mem(), cell, xs, 0, b))
  {
    hide Aligned, Pushed;
    PushedFirst(Ceil, h.Mem(), cell, xs, b);
    h.Put(cell, bp);
    h.Put(bp, NULL);
    h.Put(bp + 4, head);
    if head != NULL {
      h.Put(head, bp);
    }
  }

  /** The writes of `push_in_seglist`. */
  method PushWords(h: Memory, bp: int, asize: int, cell: int, ghost xs: seq<Block>, ghost b: Block) returns (ghost k: nat)
    requires h.Valid() && Chain(Ceil, h.Mem(), cell, xs) && b.addr == bp && b.size == asize && InHeap(h.Mem(), b)
    requires b.size % 8 == 0 && h.Mem()[bp - 4] == TagWord(Ceil, b) && forall i :: 0 <= i < |xs| ==> Away(xs[i], b)
    modifies h.cells
    ensures old(Joins(Ceil, h.Mem(), xs, k, b) && 0 <= cell < |h.Mem()|) && Spot(Ceil, xs, asize, k)
    ensures old((k > 0 ==> InHeap(h.Mem(), xs[k - 1])) && (k < |xs| ==> InHeap(h.Mem(), xs[k])))
    ensures h.Mem() == old(Pushed(Ceil, h.Mem(), cell, xs, k, b))
  {
    hide Chain, Joins, Ordered, Spread, TagWord, Aligned, Pushed, SuccOf, Masked;
    ghost var m := h.Mem();
    ChainWords(Ceil, m, cell, xs);
    ChainHead(Ceil, m, cell, xs);
    k := 0;
    var finder := h.Get(cell);
    if finder == NULL {
      JoinsFirst(Ceil, m, xs, b);
      PushHead(h, bp, NULL, cell, xs, b);
      return;
    }
    PushReads(m, cell, xs, 0);
    if asize < Masked(h.Get(finder - 4)) {
      JoinsFirst(Ceil, m, xs, b);
      PushHead(h, bp, finder, cell, xs, b);
      return;
    }
    finder, k := PushPosition(h, finder, asize, cell, xs);
    PushReads(m, cell, xs, k - 1);
    JoinsHere(Ceil, m, xs, k, b);
    PushAfter(h, bp, finder, cell, xs, k, b);
  }

  /** Behind `finder`, at the tail or in the middle. */
  method PushAfter(h: Memory, bp: int, finder: int, ghost cell: int, ghost xs: seq<Block>, ghost k: nat, ghost b: Block)
    requires h.Valid() && 0 < k <= |xs| && b.addr == bp && InHeap(h.Mem(), b) && 0 <= cell && cell + 4 <= LISTS_END
    requires InHeap(h.Mem(), xs[k - 1]) && finder == xs[k - 1].addr && h.Mem()[finder + 4] == SuccOf(Ceil, xs, k - 1) && Away(xs[k - 1], b)
    requires k < |xs| ==> InHeap(h.Mem(), xs[k]) && Away(xs[k], b) && Away(xs[k - 1], xs[k])
    modifies h.cells
    ensures h.Mem() == old(Pushed(Ceil, h.Mem(), cell, xs, k, b))
  {
    hide Aligned;
    ghost var m := h.Mem();
    var succ := h.Get(finder + 4);
    if succ == NULL {
      h.Put(finder + 4, bp);
      h.Put(bp, finder);
      h.Put(bp + 4, NULL);
      assert h.Mem() == m[bp := finder][bp + 4 := NULL][finder + 4 := bp];
    } else {
      h.Put(bp, finder);
      h.Put(bp + 4, succ);
      h.Put(finder + 4, bp);
      h.Put(h.Get(bp + 4), bp);
    }
  }

  /** `push_in_seglist`: the block joins the list of its class, which stays ascending. */
  method PushInSeglist(h: Memory, bp: int, ghost b: Block, ghost bs: seq<Block>, ghost ls: seq<seq<Block>>, ghost out: set<Block>)
    returns (ghost ls': seq<seq<Block>>)
    requires h.Valid() && SegInv(Ceil, h.Mem(), bs, ls, out) && b in bs && b.free && b in out && b.addr == bp
    modifies h.cells
    ensures SegInv(Ceil, h.Mem(), bs, ls', out - {b})
    ensures OnlyLinks(Ceil, old(h.Mem()), h.Mem(), bs) && b.size >= 0 && EntersList(Ceil, ls, ls', b)
  {
    hide SegInv, OnlyLinks, Chain, Pushed, CeilLog, Masked, TagWord, Aligned;
    ghost var m := h.Mem();
    ghost var c' := PushReady(Ceil, m, bs, ls, out, b);
    TagBits(Ceil, b);
    var asize := Masked(h.Get(bp - 4));
    var c := CeilPow2Idx(asize);
    ghost var k := PushWords(h, bp, asize, 4 * c, ls[c], b);
    PushedInv(Ceil, m, bs, ls, out, b, c, k);
    ls' := ls[c := Inserted(ls[c], k, b)];
  }

  // ---------- find_fit ----------

  /** `find_fit_in_segindex`: the first block of the list that is large enough. */
  method FindFitInSegindex(h: Memory, c: nat, asize: int, ghost xs: seq<Block>) returns (bp: int, ghost k: nat)
    requires h.Valid() && Chain(Ceil, h.Mem(), 4 * c, xs)
    ensures bp == NULL ==> forall b :: b in xs ==> b.size < asize
    ensures bp != NULL ==> k < |xs| && xs[k].addr == bp && xs[k].size >= asize && forall i :: 0 <= i < k ==> xs[i].size < asize
  {
    hide Chain, Aligned;
    ghost var m := h.Mem();
    ChainHead(Ceil, m, 4 * c, xs);
    ChainWords(Ceil, m, 4 * c, xs);
    bp, k := h.Get(4 * c), 0;
    if bp == NULL {
      return;
    }
    while true
      invariant k < |xs| && bp == xs[k].addr
      invariant forall i :: 0 <= i < k ==> xs[i].size < asize
      decreases |xs| - k
    {
      PushReads(m, 4 * c, xs, k);
      if Masked(h.Get(bp - 4)) >= asize {
        return;
      }
      bp := h.Get(bp + 4);
      k := k + 1;
      if bp == NULL {
        break;
      }
    }
  }

  /** In an ascending list the first sufficient block is the smallest. */
  lemma FirstFit(m: seq<int>, cell: int, xs: seq<Block>, k: nat, asize: int)
    requires Chain(Ceil, m, cell, xs) && k < |xs| && forall i :: 0 <= i < k ==> xs[i].size < asize
    ensures xs[k] in xs && forall x :: x in xs && x.size >= asize ==> xs[k].size <= x.size
  {
    forall x | x in xs && x.size >= asize ensures xs[k].size <= x.size {
      var j :| 0 <= j < |xs| && xs[j] == x;
      assert k < j ==> Upto(Ceil, xs[k].size, xs[j].size);
    }
  }

  /** `find_fit`: a smallest sufficient block of the whole heap, or NULL exactly if there is none. */
  method FindFit(h: Memory, asize: nat, ghost bs: seq<Block>, ghost ls: seq<seq<Block>>) returns (bp: int, ghost b: Block)
    requires h.Valid() && SegInv(Ceil, h.Mem(), bs, ls, {})
    ensures bp == NULL <==> !SomeFit(bs, asize)
    ensures bp != NULL ==> Smallest(bs, b, asize) && b.addr == bp && StopsAt(Ceil, ls, b, asize)
  {
    hide SegInv, Chain, Smallest, SomeFit, CeilLog, FitsFrom, Listed, Layout, Chains;
    ghost var m := h.Mem();
    var idx := CeilPow2Idx(asize);
    var c := if idx < Lists(Ceil) - 1 then idx else Lists(Ceil) - 1;
    ghost var k;
    b := Block(0, 0, true);
    FitStart(Ceil, bs, asize, c);
    while true
      invariant 0 <= c < Lists(Ceil)
      invariant FitsFrom(Ceil, bs, asize, c)
      decreases Lists(Ceil) - c
    {
      ListChain(Ceil, m, bs, ls, c);
      bp, k := FindFitInSegindex(h, c, asize, ls[c]);
      if bp != NULL {
        b := ls[c][k];
        FirstFit(m, 4 * c, ls[c], k, asize);
        FitFound(Ceil, m, bs, ls, c, b, asize);
        assert Stop(Ceil, ls[c], asize, k);
        return;
      }
      FitNotHere(Ceil, m, bs, ls, c, asize);
      if c >= Lists(Ceil) - 1 {
        return;
      }
      c := c + 1;
    }
  }
}
