/** The free lists of `mm_seg_ref_97.c`: removal, ordered insertion and the search for a block.
    This file addresses a block by its header, four bytes before the payload. */
module FloorOps {
  import opened Common
  import opened Memlib
  import opened Blocks
  import opened Fits
  import opened Tags
  import opened SegLists
  import opened SegHeap
  import opened SegMoves

  // ---------- remove_block_from_free_list ----------

  /** The writes of `remove_block_from_free_list`; the links of the removed block are cleared. */
  method RemoveWords(h: Memory, hp: int, cell: int, ghost xs: seq<Block>, ghost k: nat)
    requires h.Valid() && k < |xs| && xs[k].addr == hp + 4 && InHeap(h.Mem(), xs[k])
    requires 0 <= cell && Aligned(cell) && cell + 4 <= LISTS_END <= h.brk
    requires (k > 0 ==> InHeap(h.Mem(), xs[k - 1])) && (k + 1 < |xs| ==> InHeap(h.Mem(), xs[k + 1]))
    requires (k > 0 ==> Away(xs[k], xs[k - 1])) && (k + 1 < |xs| ==> Away(xs[k], xs[k + 1]))
    requires h.Mem()[hp + 4] == PredOf(Floor, xs, k) && h.Mem()[hp + 8] == SuccOf(Floor, xs, k)
    modifies h.cells
    ensures h.Mem() == old(Popped(Floor, h.Mem(), cell, xs, k))[hp + 4 := NULL][hp + 8 := NULL]
  {
    hide Aligned;
    var prev, next := h.Get(hp + 4), h.Get(hp + 8);
    if prev == NULL {
      h.Put(cell, next);
    } else {
      h.Put(prev + 8, next);
    }
    if next != NULL {
      h.Put(next + 4, prev);
    }
    h.Put(hp + 4, NULL);
    h.Put(hp + 8, NULL);
  }

  /** Writing the links of a free block that is in no list. */
  lemma LooseLinks(d: Design, m: seq<int>, bs: seq<Block>, ls: seq<seq<Block>>, out: set<Block>, b: Block, v: int, w: int)
    requires SegInv(d, m, bs, ls, out) && b in bs && b.free && b in out
    ensures 8 <= b.addr && b.addr + 8 <= |m|
    ensures SegInv(d, m[b.addr := v][b.addr + 4 := w], bs, ls, out)
    ensures OnlyLinks(d, m, m[b.addr := v][b.addr + 4 := w], bs)
  {
    hide Class, Chain, Tiles, SameLinks, TagWord;
    assert Tagged(d, m, b);
    var m' := m[b.addr := v][b.addr + 4 := w];
    LayoutLinks(d, m, m', bs);
    forall c | 0 <= c < Lists(d) ensures Chain(d, m', 4 * c, ls[c]) {
      assert Chain(d, m, 4 * c, ls[c]);
      forall x | x in ls[c] ensures SameLinks(m, m', x) {
        LooseAway(d, m, bs, b, x, v, w);
      }
      ChainFrame(d, m, m', 4 * c, ls[c]);
    }
  }

  lemma LooseAway(d: Design, m: seq<int>, bs: seq<Block>, b: Block, x: Block, v: int, w: int)
    requires Layout(d, m, bs) && b in bs && x in bs && x != b && 0 <= b.addr && b.addr + 8 <= |m|
    ensures SameLinks(m, m[b.addr := v][b.addr + 4 := w], x)
  {
    assert Tagged(d, m, b) && Tagged(d, m, x);
    BlocksApart(bs, b, x, Base(d), End(d, m));
  }

  /** `remove_block_from_free_list`: the block leaves its list. */
  method RemoveBlock(h: Memory, hp: int, ghost k: nat, ghost bs: seq<Block>, ghost ls: seq<seq<Block>>, ghost out: set<Block>)
    returns (ghost ls': seq<seq<Block>>)
    requires h.Valid() && SegInv(Floor, h.Mem(), bs, ls, out) && k < |bs| && bs[k].free && bs[k] !in out && bs[k].addr == hp + 4
    modifies h.cells
    ensures SegInv(Floor, h.Mem(), bs, ls', out + {bs[k]}) && Preserved(old(h.Mem()), h.Mem(), bs, bs, {})
    ensures bs[k].size >= 0 && LeavesList(Floor, ls, ls', bs[k])
  {
    hide SegInv, OnlyLinks, Preserved, Chain, Popped, PredOf, SuccOf, FloorLog, TagWord, Aligned;
    ghost var m, b := h.Mem(), bs[k];
    ghost var c', j := Whereabouts(Floor, m, bs, ls, out, b);
    PopReady(Floor, m, 4 * c', ls[c'], j);
    PoppedInv(Floor, m, bs, ls, out, b, c', j);
    TagBits(Floor, b);
    LooseLinks(Floor, Popped(Floor, m, 4 * c', ls[c'], j), bs, ls[c' := Without(ls[c'], j)], out + {b}, b, NULL, NULL);
    RemovedPreserved(m, Popped(Floor, m, 4 * c', ls[c'], j), b, bs, ls, out);
    var words := h.Get(hp) / 8;
    ls' := ls;
    if words == 0 {
      assert false;
    }
    var c := FindFreeListIndex(words);
    RemoveWords(h, hp, 4 * c, ls[c], j);
    ls' := ls[c := Without(ls[c], j)];
  }

  lemma RemovedPreserved(m: seq<int>, m1: seq<int>, b: Block, bs: seq<Block>, ls: seq<seq<Block>>, out: set<Block>)
    requires SegInv(Floor, m, bs, ls, out) && OnlyLinks(Floor, m, m1, bs) && 0 <= b.addr && b.addr + 8 <= |m|
    requires OnlyLinks(Floor, m1, m1[b.addr := NULL][b.addr + 4 := NULL], bs)
    ensures Preserved(m, m1[b.addr := NULL][b.addr + 4 := NULL], bs, bs, {})
  {
    var m2 := m1[b.addr := NULL][b.addr + 4 := NULL];
    forall x | 0 <= x < |m| && m[x] != m2[x] ensures LinkWord(Floor, bs, x) {
      assert m[x] != m1[x] || m1[x] != m2[x];
    }
    LinksPreserved(Floor, m, m2, bs, {});
  }

  // ---------- place_block_into_free_list ----------

  lemma ListReads(m: seq<int>, cell: int, xs: seq<Block>, i: nat)
    requires Chain(Floor, m, cell, xs) && i < |xs|
    ensures InHeap(m, xs[i]) && m[xs[i].addr + 4] == SuccOf(Floor, xs, i) && 4 * (m[xs[i].addr - 4] / 8) + 8 == xs[i].size
    ensures i + 1 < |xs| ==> InHeap(m, xs[i + 1]) && Away(xs[i], xs[i + 1])
    ensures Ordered(Floor, xs) && 0 <= cell && Aligned(cell) && cell + 4 <= LISTS_END <= |m|
  {
    ChainLinked(Floor, m, cell, xs, i);
    TagBits(Floor, xs[i]);
    ChainAway(Floor, m, cell, xs, i, i + 1);
    if i + 1 < |xs| {
      ChainLinked(Floor, m, cell, xs, i + 1);
    }
  }

  /** The search loop of `place_block_into_free_list`: past all larger blocks. */
  method PlacePosition(h: Memory, head: int, words: int, ghost cell: int, ghost xs: seq<Block>)
    returns (front: int, back: int, ghost k: nat)
    requires h.Valid() && Chain(Floor, h.Mem(), cell, xs) && xs != [] && head == Ptr(Floor, xs[0]) && xs[0].size > 4 * words + 8
    ensures 0 < k <= |xs| && back == Ptr(Floor, xs[k - 1]) && front == (if k < |xs| then Ptr(Floor, xs[k]) else NULL)
    ensures forall i :: 0 <= i < k ==> xs[i].size > 4 * words + 8
    ensures forall i :: k <= i < |xs| ==> xs[i].size <= 4 * words + 8
  {
    hide Chain, Aligned;
    front, back, k := head, NULL, 0;
    ghost var m := h.Mem();
    ListReads(m, cell, xs, 0);
    while front != NULL && h.Get(front) / 8 > words
      invariant 0 <= k <= |xs| && front == (if k < |xs| then Ptr(Floor, xs[k]) else NULL)
      invariant k > 0 ==> back == Ptr(Floor, xs[k - 1])
      invariant k < |xs| ==> InHeap(m, xs[k]) && 4 * (m[xs[k].addr - 4] / 8) + 8 == xs[k].size && m[xs[k].addr + 4] == SuccOf(Floor, xs, k)
      invariant forall i :: 0 <= i < k ==> xs[i].size > 4 * words + 8
      decreases |xs| - k
    {
      back := front;
      front := h.Get(front + 8);
      k := k + 1;
      if k < |xs| {
        ListReads(m, cell, xs, k);
      }
    }
    forall i | k <= i < |xs| ensures xs[i].size <= 4 * words + 8 {
      assert k < i ==> Upto(Floor, xs[k].size, xs[i].size);
    }
  }

  /** The writes of `place_block_into_free_list`. */
  method PlaceWords(h: Memory, hp: int, cell: int, ghost xs: seq<Block>, ghost b: Block) returns (ghost k: nat)
    requires h.Valid() && Chain(Floor, h.Mem(), cell, xs) && b.addr == hp + 4 && InHeap(h.Mem(), b) && LEAST <= b.size
    requires b.size % 8 == 0 && h.Mem()[hp] == TagWord(Floor, b) && forall i :: 0 <= i < |xs| ==> Away(xs[i], b)
    modifies h.cells
    ensures old(k <= |xs| && Joins(Floor, h.Mem(), xs, k, b) && 0 <= cell < |h.Mem()|) && Spot(Floor, xs, b.size, k)
    ensures old((k > 0 ==> InHeap(h.Mem(), xs[k - 1])) && (k < |xs| ==> InHeap(h.Mem(), xs[k])))
    ensures h.Mem() == old(Pushed(Floor, h.Mem(), cell, xs, k, b))
  {
    hide Chain, TagWord, SuccOf, Joins, Ordered, Spread, Aligned;
    ghost var m := h.Mem();
    ChainWords(Floor, m, cell, xs);
    ChainHead(Floor, m, cell, xs);
    TagBits(Floor, b);
    k := 0;
    var size := h.Get(hp) / 8;
    var front := h.Get(cell);
    if size == 0 {
      assert false;
    }
    if front == NULL {
      h.Put(hp + 8, NULL);
      h.Put(hp + 4, NULL);
      h.Put(cell, hp);
      PlacedFirst(m, cell, xs, b);
      JoinsFirst(Floor, m, xs, b);
      return;
    }
    ListReads(m, cell, xs, 0);
    if size >= h.Get(front) / 8 {
      h.Put(cell, hp);
      h.Put(hp + 8, front);
      h.Put(front + 4, hp);
      h.Put(hp + 4, NULL);
      PlacedFirst(m, cell, xs, b);
      JoinsFirst(Floor, m, xs, b);
      return;
    }
    var back;
    front, back, k := PlacePosition(h, front, size, cell, xs);
    ListReads(m, cell, xs, k - 1);
    JoinsHere(Floor, m, xs, k, b);
    LinkBetween(h, hp, front, back, cell, xs, k, b);
  }

  /** Between `back` and `front`, or at the end. */
  method LinkBetween(h: Memory, hp: int, front: int, back: int, ghost cell: int, ghost xs: seq<Block>, ghost k: nat, ghost b: Block)
    requires h.Valid() && 0 < k <= |xs| && b.addr == hp + 4 && InHeap(h.Mem(), b) && 0 <= cell && cell + 4 <= LISTS_END
    requires InHeap(h.Mem(), xs[k - 1]) && back == Ptr(Floor, xs[k - 1]) && Away(xs[k - 1], b)
    requires front == if k < |xs| then Ptr(Floor, xs[k]) else NULL
    requires k < |xs| ==> InHeap(h.Mem(), xs[k]) && Away(xs[k], b) && Away(xs[k - 1], xs[k])
    modifies h.cells
    ensures h.Mem() == old(Pushed(Floor, h.Mem(), cell, xs, k, b))
  {
    hide Aligned;
    ghost var m := h.Mem();
    if front == NULL {
      h.Put(back + 8, hp);
      h.Put(hp + 4, back);
      h.Put(hp + 8, NULL);
      assert h.Mem() == m[hp + 4 := back][hp + 8 := NULL][back + 8 := hp];
    } else {
      h.Put(back + 8, hp);
      h.Put(hp + 4, back);
      h.Put(hp + 8, front);
      h.Put(front + 4, hp);
    }
  }

  /** At the front the order of the writes does not matter. */
  lemma PlacedFirst(m: seq<int>, cell: int, xs: seq<Block>, b: Block)
    requires 0 <= cell && cell + 4 <= LISTS_END && InHeap(m, b) && (xs != [] ==> InHeap(m, xs[0]) && Away(xs[0], b))
    ensures xs == [] ==> Pushed(Floor, m, cell, xs, 0, b) == m[b.addr + 4 := NULL][b.addr := NULL][cell := Ptr(Floor, b)]
    ensures xs != [] ==>
      Pushed(Floor, m, cell, xs, 0, b)
        == m[cell := Ptr(Floor, b)][b.addr + 4 := Ptr(Floor, xs[0])][xs[0].addr := Ptr(Floor, b)][b.addr := NULL]
  {
  }

  /** `place_block_into_free_list`: the block joins the list of its class, which stays descending. */
  method PlaceBlockIntoList(h: Memory, hp: int, ghost b: Block, ghost bs: seq<Block>, ghost ls: seq<seq<Block>>)
    returns (ghost ls': seq<seq<Block>>)
    requires h.Valid() && SegInv(Floor, h.Mem(), bs, ls, {b}) && b in bs && b.free && b.addr == hp + 4
    modifies h.cells
    ensures SegInv(Floor, h.Mem(), bs, ls', {}) && Preserved(old(h.Mem()), h.Mem(), bs, bs, {})
    ensures b.size >= 0 && EntersList(Floor, ls, ls', b)
  {
    hide SegInv, OnlyLinks, Preserved, Chain, Pushed, FloorLog, TagWord, Aligned;
    ghost var m := h.Mem();
    ghost var c' := PushReady(Floor, m, bs, ls, {b}, b);
    TagBits(Floor, b);
    var c := FindFreeListIndex(h.Get(hp) / 8);
    ghost var k := PlaceWords(h, hp, 4 * c, ls[c], b);
    PushedInv(Floor, m, bs, ls, {b}, b, c, k);
    ls' := ls[c := Inserted(ls[c], k, b)];
    assert {b} - {b} == {};
    InvLayout(Floor, m, bs, ls, {b});
    LinksPreserved(Floor, m, h.Mem(), bs, {});
  }

  // ---------- find_free_block ----------

  /** In a descending list the last sufficient block is the smallest. */
  lemma LastFit(m: seq<int>, cell: int, xs: seq<Block>, k: nat, need: int)
    requires Chain(Floor, m, cell, xs) && k < |xs| && xs[k].size >= need
    requires xs[k].size == need || k + 1 == |xs| || xs[k + 1].size < need
    ensures xs[k] in xs && forall x :: x in xs && x.size >= need ==> xs[k].size <= x.size
  {
    forall x | x in xs && x.size >= need ensures xs[k].size <= x.size {
      var j :| 0 <= j < |xs| && xs[j] == x;
      assert j < k ==> Upto(Floor, xs[j].size, xs[k].size);
      assert k + 1 < j ==> Upto(Floor, xs[k + 1].size, xs[j].size);
    }
  }

  lemma TooSmallAfter(m: seq<int>, cell: int, xs: seq<Block>, k: nat, need: int)
    requires Chain(Floor, m, cell, xs) && k < |xs| && (k + 1 < |xs| ==> xs[k + 1].size < need)
    ensures forall i :: k < i < |xs| ==> xs[i].size < need
  {
    forall i | k + 1 < i < |xs| ensures xs[i].size < need {
      assert Upto(Floor, xs[k + 1].size, xs[i].size);
    }
  }

  /** The first loop of `find_free_block`: down the list as long as the next block still fits. */
  method WalkFitting(h: Memory, head: int, words: int, ghost cell: int, ghost xs: seq<Block>) returns (hp: int, ghost k: nat)
    requires h.Valid() && Chain(Floor, h.Mem(), cell, xs) && xs != [] && head == Ptr(Floor, xs[0]) && xs[0].size >= 4 * words + 8
    ensures Stop(Floor, xs, 4 * words + 8, k) && hp == Ptr(Floor, xs[k])
    ensures forall x :: x in xs && x.size >= 4 * words + 8 ==> xs[k].size <= x.size
  {
    hide Chain, Aligned;
    ghost var m := h.Mem();
    hp, k := head, 0;
    while true
      invariant k < |xs| && hp == Ptr(Floor, xs[k]) && xs[k].size >= 4 * words + 8
      invariant forall i :: 0 <= i < k ==> xs[i].size > 4 * words + 8
      decreases |xs| - k
    {
      ListReads(m, cell, xs, k);
      if h.Get(hp) / 8 == words {
        LastFit(m, cell, xs, k, 4 * words + 8);
        return;
      }
      if k + 1 < |xs| {
        ListReads(m, cell, xs, k + 1);
      }
      if h.Get(hp + 8) == NULL || h.Get(h.Get(hp + 8)) / 8 < words {
        LastFit(m, cell, xs, k, 4 * words + 8);
        TooSmallAfter(m, cell, xs, k, 4 * words + 8);
        return;
      } else {
        hp := h.Get(hp + 8);
        k := k + 1;
      }
    }
  }

  /** The last loop of `find_free_block`: the end of a list. */
  method WalkToEnd(h: Memory, head: int, ghost cell: int, ghost xs: seq<Block>) returns (hp: int, ghost k: nat)
    requires h.Valid() && Chain(Floor, h.Mem(), cell, xs) && xs != [] && head == Ptr(Floor, xs[0])
    ensures k + 1 == |xs| && hp == Ptr(Floor, xs[k])
  {
    hide Chain, Aligned;
    ghost var m := h.Mem();
    hp, k := head, 0;
    ListReads(m, cell, xs, 0);
    while h.Get(hp + 8) != NULL
      invariant k < |xs| && hp == Ptr(Floor, xs[k]) && InHeap(m, xs[k]) && m[xs[k].addr + 4] == SuccOf(Floor, xs, k)
      decreases |xs| - k
    {
      hp := h.Get(hp + 8);
      k := k + 1;
      ListReads(m, cell, xs, k);
    }
    if k + 1 < |xs| {
      ListReads(m, cell, xs, k + 1);
    }
  }

  /** `find_free_block`: a smallest sufficient block of the whole heap, or NULL exactly if there is none. */
  method FindFreeBlock(h: Memory, words: nat, ghost bs: seq<Block>, ghost ls: seq<seq<Block>>) returns (hp: int, ghost b: Block)
    requires h.Valid() && SegInv(Floor, h.Mem(), bs, ls, {}) && 4 * words + 8 <= TWO32
    ensures hp == NULL <==> !SomeFit(bs, 4 * words + 8)
    ensures hp != NULL ==> Smallest(bs, b, 4 * words + 8) && b.addr == hp + 4 && StopsAt(Floor, ls, b, 4 * words + 8)
  {
    hide SegInv, Chain, Smallest, SomeFit, FloorLog, FitsFrom, Listed, Layout, Chains, Aligned;
    ghost var m, need := h.Mem(), 4 * words + 8;
    var index := FindFreeListIndex(words);
    ghost var k;
    b := Block(0, 0, true);
    ClassFits(Floor, need);
    FitStart(Floor, bs, need, index);
    ListChain(Floor, m, bs, ls, index);
    ListHead(m, 4 * index, ls[index]);
    hp := h.Get(4 * index);
    if hp != NULL && h.Get(hp) / 8 >= words {
      hp, k := WalkFitting(h, hp, words, 4 * index, ls[index]);
      b := ls[index][k];
      ListMember(m, 4 * index, ls[index], k);
      FitFound(Floor, m, bs, ls, index, b, need);
      assert Stop(Floor, ls[index], need, k);
      return;
    }
    NoneInClass(m, 4 * index, ls[index], need);
    FitNotHere(Floor, m, bs, ls, index, need);
    index := index + 1;
    ListChain(Floor, m, bs, ls, index);
    ListHead(m, 4 * index, ls[index]);
    while h.Get(4 * index) == NULL && index < 50
      invariant index <= 50 && FitsFrom(Floor, bs, need, index) && |ls| == 51 && Chain(Floor, m, 4 * index, ls[index])
      invariant Aligned(4 * index) && 4 * index + 4 <= h.brk && (h.Get(4 * index) == NULL <==> ls[index] == [])
      invariant ls[index] != [] ==> h.Get(4 * index) == Ptr(Floor, ls[index][0])
      invariant index > FloorLog(words)
    {
      FitNotHere(Floor, m, bs, ls, index, need);
      index := index + 1;
      ListChain(Floor, m, bs, ls, index);
      ListHead(m, 4 * index, ls[index]);
    }
    hp := h.Get(4 * index);
    if hp != NULL {
      hp, k := WalkToEnd(h, hp, 4 * index, ls[index]);
      b := ls[index][k];
      HigherFits(m, bs, ls, index, b, need);
      LastFit(m, 4 * index, ls[index], k, need);
      ListMember(m, 4 * index, ls[index], k);
      FitFound(Floor, m, bs, ls, index, b, need);
      NoneOfSize(m, bs, ls, index, need);
      assert Stop(Floor, ls[index], need, k);
    } else {
      FitNotHere(Floor, m, bs, ls, index, need);
    }
  }

  lemma ListHead(m: seq<int>, cell: int, xs: seq<Block>)
    requires Chain(Floor, m, cell, xs)
    ensures 0 <= cell && Aligned(cell) && cell + 4 <= |m| && (m[cell] == NULL <==> xs == [])
    ensures xs != [] ==> m[cell] == Ptr(Floor, xs[0]) && InHeap(m, xs[0]) && 4 * (m[m[cell]] / 8) + 8 == xs[0].size
  {
    if xs != [] {
      ListReads(m, cell, xs, 0);
    }
  }

  lemma ListMember(m: seq<int>, cell: int, xs: seq<Block>, k: nat)
    requires Chain(Floor, m, cell, xs) && k < |xs|
    ensures Ptr(Floor, xs[k]) != NULL && xs[k] in xs
  {
    ListReads(m, cell, xs, k);
  }

  /** A descending list whose head is too small holds no sufficient block. */
  lemma NoneInClass(m: seq<int>, cell: int, xs: seq<Block>, need: int)
    requires Chain(Floor, m, cell, xs) && (xs != [] ==> xs[0].size < need)
    ensures forall x :: x in xs ==> x.size < need
  {
    forall x | x in xs ensures x.size < need {
      var j :| 0 <= j < |xs| && xs[j] == x;
      assert 0 < j ==> Upto(Floor, xs[0].size, xs[j].size);
    }
  }

  /** Every block of a higher class is larger. */
  lemma NoneOfSize(m: seq<int>, bs: seq<Block>, ls: seq<seq<Block>>, c: nat, need: nat)
    requires SegInv(Floor, m, bs, ls, {}) && c < Lists(Floor) && |ls| == Lists(Floor) && Class(Floor, need) < c
    ensures forall i :: 0 <= i < |ls[c]| ==> ls[c][i].size > need
  {
    hide Chain, Layout;
    forall i | 0 <= i < |ls[c]| ensures ls[c][i].size > need {
      assert ls[c][i] in ls[c];
      ClassOrder(Floor, need, ls[c][i].size);
    }
  }

  /** Every block of a higher class is large enough. */
  lemma HigherFits(m: seq<int>, bs: seq<Block>, ls: seq<seq<Block>>, c: nat, b: Block, need: nat)
    requires SegInv(Floor, m, bs, ls, {}) && c < Lists(Floor) && |ls| == Lists(Floor) && b in ls[c] && Class(Floor, need) < c
    ensures b.size >= need
  {
    hide Chain, Layout;
    ClassOrder(Floor, need, b.size);
  }
}
