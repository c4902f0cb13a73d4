/** `mm_init`, `mm_malloc`, `mm_free` and `mm_check` of `mm_rbtree_ref.c`. */
module RbAlloc {
  import opened Common
  import opened Memlib
  import opened Blocks
  import opened RbModel
  import opened RbMem
  import opened RbSearch
  import opened RbInsert
  import opened RbDelete
  import opened RbHeap

  const HEADER := 8

  /** `ALIGN`, on 32-bit sizes. */
  function Align(n: int): int {
    Masked((n + 7) % TWO32)
  }

  /** The size of the block that serves a request. */
  function BlockSize(size: int): int {
    var b := Align((HEADER + size) % TWO32);
    if b < LEAST then LEAST else b
  }

  /** A request fits into its block unless the 32-bit rounding wraps around. */
  lemma BlockSizeFits(size: int)
    requires 0 <= size < TWO32
    ensures BlockSize(size) % 8 == 0 && LEAST <= BlockSize(size) <= TWO32
    ensures BlockSize(size) >= HEADER + size <==> size <= TWO32 - 16
    ensures size <= TWO32 - 16 ==> LeastSize(BlockSize(size), size, 24)
  {
    var n := HEADER + size + 7;
    if size < TWO32 - 15 {
      assert (HEADER + size) % TWO32 == HEADER + size && n % TWO32 == n;
    } else if size < TWO32 - 8 {
      assert (HEADER + size) % TWO32 == HEADER + size && n % TWO32 == n - TWO32;
    } else {
      assert (HEADER + size) % TWO32 == HEADER + size - TWO32;
    }
  }

  /** No smaller block would do. */
  lemma BlockSizeLeast(size: int, n: int)
    requires 0 <= size <= TWO32 - 16 && n % 8 == 0 && n >= 24 && n >= size + 8
    ensures BlockSize(size) <= n
  {
    BlockSizeFits(size);
    LeastOfAll(BlockSize(size), size, 24, n);
  }

  // ---------- pieces of malloc and free ----------

  /** Write the tag of a block at both ends. */
  method PutTags(h: Memory, p: int, size: int, free: bool)
    requires h.Valid() && 0 <= p && 8 <= size && p + size + 4 <= h.brk && Boundary(p) && Boundary(p + size)
    modifies h.cells
    ensures var t := TagWord(Block(p, size, free)); h.Mem() == old(h.Mem())[p + size := t][p + 4 := t]
  {
    var t := if free then size + 1 else size;
    h.Put(p + size, t);
    h.Put(p + 4, t);
  }

  /** Take a free block out of the tree, if it is large enough to be there. */
  method Unlist(h: Memory, p: int, ghost b: Block, ghost bs: seq<Block>, ghost ns: set<int>, ghost w: Tree, ghost out: set<int>)
    returns (ghost ns': set<int>, ghost w': Tree)
    requires h.Valid() && HeapInv(h.Mem(), bs, ns, w, out)
    requires b in bs && b.free && b.addr == p && p !in out
    modifies h.cells
    ensures HeapInv(h.Mem(), bs, ns', w', out + {p}) && ns' == ns - {p}
    ensures OnlyLinks(old(h.Mem()), h.Mem(), ns)
  {
    hide HeapInv, Layout, Rep, RB, Sorted, InOrder, Apart, Owned, OnlyLinks, Listed, Tiles, InsertedAt, Masked, TagWord, Tagged,
      Aligned;
    ghost var m := h.Mem();
    InvParts(m, bs, ns, w, out, b);
    HeaderReads(m, b);
    ns', w' := ns, w;
    if Masked(h.Get(p + 4)) >= LEAST {
      ghost var k, i;
      w', k, i := Delete(h, p, ns, w);
      ns' := ns - {p};
      UnlistDone(m, h.Mem(), bs, ns, w, out, w', k, i);
    } else {
      UnlistSmall(m, bs, ns, w, out, b);
    }
  }

  /** The header of a block. */
  lemma HeaderReads(m: seq<int>, b: Block)
    requires Tagged(m, b) && b.size % 8 == 0
    ensures b.addr + 8 <= |m| && Aligned(b.addr + 4) && m[b.addr + 4] == TagWord(b) && Masked(m[b.addr + 4]) == b.size
  {
    TagBits(b);
  }

  lemma UnlistDone(m: seq<int>, m': seq<int>, bs: seq<Block>, ns: set<int>, w: Tree, out: set<int>, w': Tree, k: nat, i: Item)
    requires HeapInv(m, bs, ns, w, out) && OnlyLinks(m, m', ns)
    requires Rep(m', ns - {i.addr}, Top, w') && RB(w') && Sorted(InOrder(w')) && InsertedAt(InOrder(w'), k, i, InOrder(w))
    ensures HeapInv(m', bs, ns - {i.addr}, w', out + {i.addr})
  {
    NodesOwned(m, bs, ns, w, out);
    LayoutLinks(m, m', bs, ns);
    ListedRemoved(bs, InOrder(w), out, InOrder(w'), k, i, FIRST, End(m));
  }

  lemma UnlistSmall(m: seq<int>, bs: seq<Block>, ns: set<int>, w: Tree, out: set<int>, b: Block)
    requires HeapInv(m, bs, ns, w, out) && b in bs && b.free && b.size < LEAST && b.addr !in out
    ensures HeapInv(m, bs, ns, w, out + {b.addr}) && ns == ns - {b.addr} && OnlyLinks(m, m, ns)
  {
    InvParts(m, bs, ns, w, out, b);
    forall x | x in InOrder(w) ensures x.addr != b.addr {
      BlocksApart(bs, b, Block(x.addr, x.size, true), FIRST, End(m));
    }
  }

  /** Put a free block into the tree, if it is large enough. */
  method Enlist(h: Memory, p: int, ghost b: Block, ghost ns: set<int>, ghost w: Tree)
    returns (ghost ns': set<int>, ghost w': Tree)
    requires h.Valid() && TreeOK(h.Mem(), ns, w)
    requires b.free && b.addr == p && b.size >= 8 && FIRST <= p && p + b.size <= h.brk && p + 8 <= h.brk
    requires Boundary(p) && b.size % 8 == 0
    requires h.Mem()[p + 4] == TagWord(b) && Outside(ns, p, p + b.size)
    modifies h.cells
    ensures TreeOK(h.Mem(), ns', w') && ns' == if b.size >= LEAST then ns + {p} else ns
    ensures forall x :: x in InOrder(w') <==> x in InOrder(w) || (b.size >= LEAST && x == Item(b.size, p))
    ensures OnlyLinks(old(h.Mem()), h.Mem(), ns')
  {
    hide TreeOK, Rep, RB, Sorted, InOrder, Apart, OnlyLinks, InsertedAt, Outside, Masked, Aligned;
    TagBits(b);
    ns', w' := ns, w;
    if Masked(h.Get(p + 4)) >= LEAST {
      EnlistReady(h.Mem(), ns, w, b);
      ghost var k, nodes;
      w', k, nodes := Insert(h, p, ns, w, Item(b.size, p));
      ns' := ns + {p};
      EnlistDone(h.Mem(), ns, w, w', k, Item(b.size, p));
    } else {
      OnlyLinksSame(h.Mem(), ns);
    }
  }

  lemma EnlistReady(m: seq<int>, ns: set<int>, w: Tree, b: Block)
    requires TreeOK(m, ns, w) && Outside(ns, b.addr, b.addr + b.size) && b.size >= LEAST && FIRST <= b.addr
    requires Boundary(b.addr) && b.addr + b.size <= |m|
    ensures Readable(m, b.addr)
    ensures Rep(m, ns, Top, w) && RB(w) && Sorted(InOrder(w)) && b.addr !in ns && Apart(ns + {b.addr})
  {
  }

  lemma EnlistDone(m: seq<int>, ns: set<int>, w: Tree, w': Tree, k: nat, i: Item)
    requires Rep(m, ns + {i.addr}, Top, w') && RB(w') && Sorted(InOrder(w')) && InsertedAt(InOrder(w), k, i, InOrder(w'))
    ensures TreeOK(m, ns + {i.addr}, w')
    ensures forall x :: x in InOrder(w') <==> x in InOrder(w) || x == i
  {
    forall x ensures x in InOrder(w') <==> x in InOrder(w) || x == i {
      InsertedMembers(InOrder(w), k, i, InOrder(w'), x);
    }
  }

  lemma TagsConfined(m: seq<int>, m': seq<int>, ns: set<int>, lo: int, hi: int, p: int, size: int, t: int)
    requires 0 <= p && size >= 8 && p + size < |m| && m' == m[p + size := t][p + 4 := t]
    requires lo <= p && p + size <= hi
    ensures Confined(m, m', ns, lo, hi)
    ensures forall x :: 0 <= x < |m| && m[x] != m'[x] ==> p < x <= p + size
  {
  }

  // ---------- malloc: a free block fits ----------

  /** Split off the rest of a free block that is larger than needed. */
  method SplitRest(h: Memory, next: int, rest: int, ghost lo: int, ghost ns0: set<int>, ghost ns: set<int>, ghost w: Tree)
    returns (ghost ns': set<int>, ghost w': Tree)
    requires h.Valid() && TreeOK(h.Mem(), ns, w) && FIRST <= lo && lo <= next && 8 <= rest && rest % 8 == 0
    requires Boundary(next) && Boundary(next + rest) && next + rest + 4 <= h.brk && Outside(ns, lo, next + rest) && ns <= ns0
    modifies h.cells
    ensures TreeOK(h.Mem(), ns', w') && Outside(ns', lo, next)
    ensures Relisted(InOrder(w), InOrder(w'), [Block(next, rest, true)])
    ensures Tagged(h.Mem(), Block(next, rest, true))
    ensures |h.Mem()| == |old(h.Mem())| && Confined(old(h.Mem()), h.Mem(), ns0, lo, next + rest)
  {
    hide TreeOK, Confined, Outside, OnlyLinks, InOrder, Relisted;
    ghost var b, hi := Block(next, rest, true), next + rest;
    ghost var m0 := h.Mem();
    PutTags(h, next, rest, true);
    ghost var m1 := h.Mem();
    TagsConfined(m0, m1, ns0, lo, hi, next, rest, TagWord(b));
    TreeKept(m0, m1, ns, w, lo, hi);
    OutsidePart(ns, lo, next, hi);
    ns', w' := Enlist(h, next, b, ns, w);
    EnlistedRegion(m1, h.Mem(), ns0, ns, ns', b, lo);
    ConfinedTrans(m0, m1, h.Mem(), ns0, lo, hi);
    RelistedOne(InOrder(w), InOrder(w'), b);
  }

  lemma OutsidePart(ns: set<int>, lo: int, mid: int, hi: int)
    requires Outside(ns, lo, hi) && lo <= mid <= hi
    ensures Outside(ns, mid, hi)
  {
  }

  lemma RelistedOne(xs: seq<Item>, ys: seq<Item>, b: Block)
    requires b.free && forall x :: x in ys <==> x in xs || (b.size >= LEAST && x == Item(b.size, b.addr))
    ensures Relisted(xs, ys, [b])
  {
  }

  /** Inserting `b` into the tree keeps its tags and stays inside the region. */
  lemma EnlistedRegion(m: seq<int>, m': seq<int>, ns0: set<int>, ns: set<int>, ns': set<int>, b: Block, lo: int)
    requires OnlyLinks(m, m', ns') && ns' == (if b.size >= LEAST then ns + {b.addr} else ns) && ns <= ns0
    requires FIRST <= lo <= b.addr && b.size >= 8 && b.addr + b.size < |m| && Outside(ns, lo, b.addr + b.size)
    ensures Outside(ns', lo, b.addr)
    ensures m'[b.addr + 4] == m[b.addr + 4] && m'[b.addr + b.size] == m[b.addr + b.size]
    ensures Confined(m, m', ns0, lo, b.addr + b.size)
  {
    LinksConfined(m, m', ns', ns0, lo, b.addr + b.size);
    forall x | x == b.addr + 4 || x == b.addr + b.size ensures m[x] == m'[x] {
      forall a | a in ns' ensures !(a + 8 <= x < a + NODE_BYTES) {
        if a != b.addr {
          assert a in ns;
        }
      }
    }
  }

  /** What is left of block `b` after its first `need` bytes becomes a block again, if there is anything left. */
  method SplitOff(h: Memory, p: int, need: int, ghost b: Block, ghost ns0: set<int>, ghost ns: set<int>, ghost w: Tree)
    returns (ghost ns': set<int>, ghost w': Tree)
    requires h.Valid() && TreeOK(h.Mem(), ns, w) && Tagged(h.Mem(), b) && b.addr == p && FIRST <= p && ns <= ns0
    requires b.size % 8 == 0 && LEAST <= need <= b.size && need % 8 == 0 && b.addr + b.size + 4 <= h.brk
    requires Outside(ns, p, p + b.size) && Boundary(p + need) && Boundary(p + b.size)
    modifies h.cells
    ensures TreeOK(h.Mem(), ns', w') && Outside(ns', p, p + need) && RestTagged(h.Mem(), b, need)
    ensures Relisted(InOrder(w), InOrder(w'), Cut(b, need)[1..])
    ensures |h.Mem()| == |old(h.Mem())| && Confined(old(h.Mem()), h.Mem(), ns0, p, p + b.size)
  {
    hide TreeOK, InOrder, Confined, Outside, Relisted, Boundary, Aligned, Masked, Tagged, Cut, TagWord;
    ghost var m := h.Mem();
    HeaderReads(m, b);
    CutRest(b, need);
    ns', w' := ns, w;
    var rest := Masked(h.Get(p + 4)) - need;
    if rest > 0 {
      SizesApart(b.size, need);
      ns', w' := SplitRest(h, p + need, rest, p, ns0, ns, w);
    } else {
      RelistedNone(InOrder(w));
      ConfinedRefl(m, ns0, p, p + b.size);
    }
  }

  lemma SizesApart(a: int, b: int)
    requires b < a && a % 8 == 0 && b % 8 == 0
    ensures (a - b) % 8 == 0 && a - b >= 8
  {
    var p, q := a / 8, b / 8;
    assert a - b == 8 * (p - q);
    Eights(p - q);
  }

  /** `mm_malloc` when `rb_find` has found block `k`: take it out of the tree and give back the rest. */
  method TakeFit(h: Memory, p: int, need: int, ghost k: nat, ghost bs: seq<Block>, ghost ns: set<int>, ghost w: Tree)
    returns (ghost ns': set<int>, ghost w': Tree)
    requires h.Valid() && HeapInv(h.Mem(), bs, ns, w, {})
    requires k < |bs| && bs[k].free && bs[k].addr == p && LEAST <= need <= bs[k].size && need % 8 == 0
    modifies h.cells
    ensures HeapInv(h.Mem(), Carve(bs, k, need), ns', w', {})
    ensures OthersSame(old(h.Mem()), h.Mem(), bs, k, k + 1)
  {
    hide HeapInv, Layout, TreeOK, Rep, RB, Sorted, InOrder, Apart, Owned, OnlyLinks, Listed, Tiles, InsertedAt,
      Confined, Outside, Relisted, OthersSame, SameBlock, Boundary, WellFormed, Aligned, Masked, Tagged, Cut, Carve;
    ghost var b, m0 := bs[k], h.Mem();
    CutRest(b, need);
    InvParts(m0, bs, ns, w, {}, b);
    TookRegion(m0, bs, k, ns, w, need);
    ghost var w1, kk, i := Delete(h, p, ns, w);
    ghost var m1 := h.Mem();
    Deleted(m0, m1, bs, ns, w, w1, kk, i, b);
    ghost var ns1 := ns - {p};
    ns', w' := SplitOff(h, p, need, b, ns, ns1, w1);
    ghost var m3 := h.Mem();
    PutTags(h, p, need, false);
    TookFit(m0, m1, m3, h.Mem(), bs, k, need, ns, w, ns1, w1, ns', w');
  }

  lemma ConfinedRefl(m: seq<int>, ns: set<int>, lo: int, hi: int)
    ensures Confined(m, m, ns, lo, hi)
  {
  }

  lemma CutRest(b: Block, need: int)
    ensures Cut(b, need)[1..] == if b.size > need then [Block(b.addr + need, b.size - need, true)] else []
  {
  }

  lemma RelistedNone(xs: seq<Item>)
    ensures Relisted(xs, xs, [])
  {
  }

  lemma Deleted(m: seq<int>, m': seq<int>, bs: seq<Block>, ns: set<int>, w: Tree, w': Tree, kk: nat, i: Item, b: Block)
    requires HeapInv(m, bs, ns, w, {}) && OnlyLinks(m, m', ns) && b in bs && i.addr == b.addr
    requires Rep(m', ns - {i.addr}, Top, w') && RB(w') && Sorted(InOrder(w')) && InsertedAt(InOrder(w'), kk, i, InOrder(w))
    ensures HeapInv(m', bs, ns - {b.addr}, w', {b.addr}) && TreeOK(m', ns - {b.addr}, w') && Tagged(m', b)
    ensures Outside(ns - {b.addr}, b.addr, b.addr + b.size)
    ensures Confined(m, m', ns, b.addr, b.addr + b.size)
  {
    UnlistDone(m, m', bs, ns, w, {}, w', kk, i);
    assert {} + {i.addr} == {b.addr};
    NodesOwned(m, bs, ns, w, {});
    OutsideBlock(bs, ns - {b.addr}, b, FIRST, End(m));
    LinksConfined(m, m', ns, ns, b.addr, b.addr + b.size);
  }

  /** The rest of block `b`, if any, carries its tags. */
  ghost predicate RestTagged(m: seq<int>, b: Block, need: int) {
    b.size > need ==> Tagged(m, Block(b.addr + need, b.size - need, true))
  }

  lemma CutTagged(m: seq<int>, b: Block, need: int)
    requires RestTagged(m, b, need) && 0 <= b.addr && 8 <= need <= b.size && b.addr + b.size < |m|
    requires Boundary(b.addr) && Boundary(b.addr + need)
    ensures forall x :: x in Cut(b, need) ==> Tagged(m[b.addr + need := need][b.addr + 4 := need], x)
  {
    hide Aligned;
  }

  lemma TookFit(m0: seq<int>, m1: seq<int>, m3: seq<int>, m4: seq<int>, bs: seq<Block>, k: nat, need: int,
      ns: set<int>, w: Tree, ns1: set<int>, w1: Tree, ns': set<int>, w': Tree)
    requires HeapInv(m0, bs, ns, w, {}) && k < |bs| && bs[k].free && LEAST <= need <= bs[k].size && need % 8 == 0
    requires HeapInv(m1, bs, ns1, w1, {bs[k].addr}) && |m0| == |m1| == |m3|
    requires Confined(m0, m1, ns, bs[k].addr, bs[k].addr + bs[k].size)
    requires Confined(m1, m3, ns, bs[k].addr, bs[k].addr + bs[k].size)
    requires TreeOK(m3, ns', w') && Outside(ns', bs[k].addr, bs[k].addr + need)
    requires Relisted(InOrder(w1), InOrder(w'), Cut(bs[k], need)[1..]) && RestTagged(m3, bs[k], need)
    requires 0 <= bs[k].addr && bs[k].addr + need < |m3| && m4 == m3[bs[k].addr + need := need][bs[k].addr + 4 := need]
    ensures HeapInv(m4, Carve(bs, k, need), ns', w', {})
    ensures OthersSame(m0, m4, bs, k, k + 1)
  {
    hide HeapInv, Confined, TreeOK, Outside, Relisted, RestTagged, Tagged, Layout, Rep, RB, Sorted, InOrder,
      Listed, Tiles, WellFormed, OthersSame;
    var b, mid := bs[k], Cut(bs[k], need);
    var p, e := b.addr, b.addr + b.size;
    TookRegion(m0, bs, k, ns, w, need);
    TagsConfined(m3, m4, ns, p, e, p, need, need);
    ConfinedTrans(m0, m1, m3, ns, p, e);
    ConfinedTrans(m0, m3, m4, ns, p, e);
    TreeKept(m3, m4, ns', w', p, p + need);
    CutTagged(m3, b, need);
    RelistedUsed(InOrder(w1), InOrder(w'), mid);
    InvListed(m1, bs, ns1, w1, {p});
    InvSplice(m0, m4, bs, ns, w, k, k + 1, mid, ns', InOrder(w1), w', {p});
  }

  lemma InvListed(m: seq<int>, bs: seq<Block>, ns: set<int>, w: Tree, out: set<int>)
    requires HeapInv(m, bs, ns, w, out)
    ensures Listed(bs, InOrder(w), out)
  {
  }

  lemma TookRegion(m: seq<int>, bs: seq<Block>, k: nat, ns: set<int>, w: Tree, need: int)
    requires HeapInv(m, bs, ns, w, {}) && k < |bs| && bs[k].free && LEAST <= need <= bs[k].size && need % 8 == 0
    ensures FIRST <= bs[k].addr && bs[k].addr + bs[k].size < |m|
    ensures Boundary(bs[k].addr) && Boundary(bs[k].addr + need) && Boundary(bs[k].addr + bs[k].size)
    ensures Start(bs, k, End(m)) == bs[k].addr && Start(bs, k + 1, End(m)) == bs[k].addr + bs[k].size
    ensures WellFormed(Splice(bs, k, k + 1, Cut(bs[k], need)), FIRST, End(m), LEAST)
  {
    TileAt(bs, k, FIRST, End(m));
    StartAligned(bs, k, End(m));
    StartAligned(bs, k + 1, End(m));
    MultipleSum(bs[k].addr, need);
    CarveWellFormed(bs, k, need, FIRST, End(m), LEAST);
  }

  lemma RelistedUsed(xs: seq<Item>, ys: seq<Item>, mid: seq<Block>)
    requires mid != [] && !mid[0].free && Relisted(xs, ys, mid[1..])
    ensures Relisted(xs, ys, mid)
  {
    forall b: Block | b.free ensures b in mid <==> b in mid[1..] {
    }
  }

  // ---------- malloc: the heap grows ----------

  /** The last word of the heap mirrors the tag of the last block. */
  lemma LastWord(m: seq<int>, bs: seq<Block>, ns: set<int>, w: Tree)
    requires HeapInv(m, bs, ns, w, {})
    ensures FIRST <= End(m) && End(m) % 8 == 0 && Boundary(End(m)) && (m[End(m)] % 2 == 1 <==> EndsFree(bs))
    ensures EndsFree(bs) ==>
      && GrowStart(bs, End(m)) == End(m) - Masked(m[End(m)]) && FIRST <= GrowStart(bs, End(m))
      && GrowStart(bs, End(m)) % 8 == 0 && Boundary(GrowStart(bs, End(m)))
      && bs[|bs| - 1] in bs && bs[|bs| - 1].addr + bs[|bs| - 1].size == End(m)
      && Masked(m[GrowStart(bs, End(m)) + 4]) == bs[|bs| - 1].size
  {
    StartAligned(bs, |bs|, End(m));
    TilesBounds(bs, FIRST, End(m));
    if bs != [] {
      StartAligned(bs, |bs| - 1, End(m));
      var b := bs[|bs| - 1];
      TileAt(bs, |bs| - 1, FIRST, End(m));
      assert Tagged(m, b);
      TagBits(b);
    }
  }

  /** All nodes lie before `p`. */
  ghost predicate Below(ns: set<int>, p: int) {
    forall a :: a in ns ==> a + NODE_BYTES <= p
  }

  lemma NodesBelow(m: seq<int>, bs: seq<Block>, ns: set<int>, w: Tree, out: set<int>)
    requires HeapInv(m, bs, ns, w, out) && (EndsFree(bs) ==> GrowStart(bs, End(m)) in out && GrowStart(bs, End(m)) !in ns)
    ensures Below(ns, GrowStart(bs, End(m)))
  {
    hide Aligned, Boundary;
    NodesOwned(m, bs, ns, w, out);
    forall a | a in ns ensures a + NODE_BYTES <= GrowStart(bs, End(m)) {
      var s :| s >= LEAST && Block(a, s, true) in bs;
      var b := Block(a, s, true);
      BlocksApart(bs, b, b, FIRST, End(m));
      if EndsFree(bs) {
        BlocksApart(bs, b, bs[|bs| - 1], FIRST, End(m));
        TileAt(bs, |bs| - 1, FIRST, End(m));
      }
    }
  }

  /** Move the break by what a free last block does not cover; that block leaves the tree. */
  method GrowHeap(h: Memory, need: int, ghost bs: seq<Block>, ghost ns: set<int>, ghost w: Tree)
    returns (p: int, ghost out: set<int>, ghost ns': set<int>, ghost w': Tree)
    requires h.Valid() && HeapInv(h.Mem(), bs, ns, w, {}) && need >= LEAST && forall b :: b in bs && b.free ==> b.size < need
    requires GrowStart(bs, End(h.Mem())) + need + 4 <= h.cells.Length
    modifies h`brk, h.cells
    ensures h.Valid() && p == old(GrowStart(bs, End(h.Mem()))) && FIRST <= p && p % 8 == 0 && h.brk == p + need + 4
    ensures old(h.brk) <= h.brk && HeapInv(h.Mem()[..old(h.brk)], bs, ns', w', out)
    ensures OnlyLinks(old(h.Mem()), h.Mem()[..old(h.brk)], ns)
    ensures out == (if EndsFree(bs) then {p} else {}) && ns' == ns - out
  {
    hide HeapInv, OnlyLinks, Aligned, Layout, Tiles, Tagged, Rep, RB, Sorted, Apart, Owned, Masked;
    ghost var m := h.Mem();
    LastWord(m, bs, ns, w);
    p, ns', w', out := h.HeapHi() - 3, ns, w, {};
    var r;
    if h.Get(p) % 2 == 1 {
      p := p - Masked(h.Get(p));
      out := {p};
      ghost var b := bs[|bs| - 1];
      ns', w' := Unlist(h, p, b, bs, ns, w, {});
      assert {} + {p} == out;
      InvParts(h.Mem(), bs, ns', w', out, b);
      HeaderReads(h.Mem(), b);
      r := h.Sbrk(need - Masked(h.Get(p + 4)));
    } else {
      OnlyLinksSame(m, ns);
      r := h.Sbrk(need);
    }
  }

  /** `mm_malloc` when no block fits: extend the heap, and with it the last block if that is free. */
  method TakeGrown(h: Memory, need: int, ghost bs: seq<Block>, ghost ns: set<int>, ghost w: Tree)
    returns (p: int, ghost ns': set<int>, ghost w': Tree)
    requires h.Valid() && HeapInv(h.Mem(), bs, ns, w, {}) && LEAST <= need && need % 8 == 0
    requires forall b :: b in bs && b.free ==> b.size < need
    requires GrowStart(bs, End(h.Mem())) + need + 4 <= h.cells.Length
    modifies h`brk, h.cells
    ensures h.Valid() && p == old(GrowStart(bs, End(h.Mem()))) && h.brk == p + need + 4
    ensures HeapInv(h.Mem(), old(Grow(bs, End(h.Mem()), need)), ns', w', {})
    ensures OthersSame(old(h.Mem()), h.Mem(), bs, |Kept(bs)|, |bs|)
  {
    hide HeapInv, OnlyLinks, OthersSame, Aligned, Boundary, Grow, Kept, GrowStart, EndsFree;
    ghost var m0, out := h.Mem(), {};
    p, out, ns', w' := GrowHeap(h, need, bs, ns, w);
    MultipleSum(p, 0);
    MultipleSum(p, need);
    ghost var m2 := h.Mem();
    PutTags(h, p, need, false);
    Grown(m0, m2, h.Mem(), bs, ns, w, need, out, ns', w');
  }

  lemma Grown(m0: seq<int>, m2: seq<int>, m3: seq<int>, bs: seq<Block>, ns: set<int>, w: Tree, need: int, out: set<int>,
      ns': set<int>, w': Tree)
    requires HeapInv(m0, bs, ns, w, {}) && LEAST <= need && need % 8 == 0
    requires forall b :: b in bs && b.free ==> b.size < need
    requires var p := GrowStart(bs, End(m0)); FIRST <= p && |m2| == p + need + 4 && m3 == m2[p + need := need][p + 4 := need]
    requires |m0| <= |m2| && HeapInv(m2[..|m0|], bs, ns', w', out) && OnlyLinks(m0, m2[..|m0|], ns)
    requires out == (if EndsFree(bs) then {GrowStart(bs, End(m0))} else {}) && ns' == ns - out
    ensures HeapInv(m3, Grow(bs, End(m0), need), ns', w', {})
    ensures OthersSame(m0, m3, bs, |Kept(bs)|, |bs|)
  {
    hide HeapInv, Confined, TreeOK, Relisted, Layout, Rep, RB, Sorted, InOrder, Listed, WellFormed, OthersSame, OnlyLinks, Below,
      Aligned, Boundary;
    var p, n, mid := GrowStart(bs, End(m0)), |Kept(bs)|, [Block(GrowStart(bs, End(m0)), need, false)];
    var m1 := m2[..|m0|];
    GrownRegion(m0, bs, ns, w, need);
    NodesBelow(m1, bs, ns', w', out);
    GrownTree(m1, m2, m3, bs, ns', w', out, p, need);
    GrownConfined(m0, m2, m3, bs, ns, p, need);
    InvListed(m1, bs, ns', w', out);
    RelistedNone(InOrder(w'));
    RelistedUsed(InOrder(w'), InOrder(w'), mid);
    assert Kept(bs) == bs[..n] && bs[|bs|..] == [];
    assert Splice(bs, n, |bs|, mid) == Grow(bs, End(m0), need);
    InvSplice(m0, m3, bs, ns, w, n, |bs|, mid, ns', InOrder(w'), w', out);
  }

  lemma GrownRegion(m: seq<int>, bs: seq<Block>, ns: set<int>, w: Tree, need: int)
    requires HeapInv(m, bs, ns, w, {}) && LEAST <= need && need % 8 == 0
    requires forall b :: b in bs && b.free ==> b.size < need
    ensures var p := GrowStart(bs, End(m));
      && FIRST <= p <= End(m) && Boundary(p) && Boundary(p + need) && Start(bs, |Kept(bs)|, End(m)) == p && Start(bs, |bs|, End(m)) == End(m)
      && (p < End(m) ==> p + 8 <= End(m)) && End(m) + 8 <= p + need
      && WellFormed(Grow(bs, End(m), need), FIRST, p + need, LEAST)
  {
    hide HeapInv, Tiles, WellFormed, Boundary, Kept, GrowStart, Grow, Start;
    InvTiles(m, bs, ns, w, {});
    GrowWellFormed(bs, need, FIRST, End(m), LEAST);
    GrownStart(bs, need, End(m));
    GrownBoundary(bs, need, End(m));
  }

  lemma GrownStart(bs: seq<Block>, need: int, to: int)
    requires Tiles(bs, FIRST, to) && LEAST <= need && need % 8 == 0 && forall b :: b in bs && b.free ==> b.size < need
    ensures var p := GrowStart(bs, to);
      Start(bs, |Kept(bs)|, to) == p && Start(bs, |bs|, to) == to && (p < to ==> p + 8 <= to) && to + 8 <= p + need
  {
    if EndsFree(bs) {
      var b := bs[|bs| - 1];
      TileAt(bs, |bs| - 1, FIRST, to);
      assert b in bs && b.size < need;
      SizeGap(b.size, need);
    }
  }

  /** Multiples of eight differ by eight at least. */
  lemma SizeGap(a: int, b: int)
    requires a < b && a % 8 == 0 && b % 8 == 0
    ensures a + 8 <= b
  {
    var p, q := a / 8, b / 8;
    assert a == 8 * p && b == 8 * q;
  }

  lemma GrownBoundary(bs: seq<Block>, need: int, to: int)
    requires Tiles(bs, FIRST, to) && need % 8 == 0 && Start(bs, |Kept(bs)|, to) == GrowStart(bs, to)
    ensures Boundary(GrowStart(bs, to)) && Boundary(GrowStart(bs, to) + need)
  {
    hide Boundary, Tiles;
    StartAligned(bs, |Kept(bs)|, to);
    MultipleSum(GrowStart(bs, to), need);
  }

  lemma GrownTree(m1: seq<int>, m2: seq<int>, m3: seq<int>, bs: seq<Block>, ns: set<int>, w: Tree, out: set<int>, p: int, need: int)
    requires HeapInv(m1, bs, ns, w, out) && Below(ns, p) && FIRST <= p && need >= 8
    requires |m1| <= |m2| && m2[..|m1|] == m1 && p + need < |m2| && m3 == m2[p + need := need][p + 4 := need]
    ensures TreeOK(m3, ns, w)
  {
    hide TreeOK, Layout, Listed;
    InvTree(m1, bs, ns, w, out);
    TreeKept(m1, m2, ns, w, p, p);
    TreeKept(m2, m3, ns, w, p, p + need);
  }

  lemma InvTree(m: seq<int>, bs: seq<Block>, ns: set<int>, w: Tree, out: set<int>)
    requires HeapInv(m, bs, ns, w, out)
    ensures TreeOK(m, ns, w)
  {
  }

  lemma GrownConfined(m0: seq<int>, m2: seq<int>, m3: seq<int>, bs: seq<Block>, ns: set<int>, p: int, need: int)
    requires |m0| <= |m2| && OnlyLinks(m0, m2[..|m0|], ns)
    requires 0 <= p <= End(m0) && (p < End(m0) ==> p + 8 <= End(m0)) && End(m0) + 8 <= p + need && p + need < |m2|
    requires m3 == m2[p + need := need][p + 4 := need]
    ensures Confined(m0, m3, ns, p, End(m0))
  {
    forall x | 0 <= x < |m0| && m0[x] != m3[x] ensures p < x <= End(m0) || LinkWord(ns, x) {
      assert m2[..|m0|][x] == m2[x];
    }
  }

  // ---------- free ----------

  /** What `mm_free` reads around the block it frees. */
  lemma Neighbours(m: seq<int>, bs: seq<Block>, k: nat)
    requires Layout(m, bs) && k < |bs|
    ensures var b := bs[k];
      && FIRST <= b.addr && b.addr + b.size <= End(m) && b.size >= 8 && Boundary(b.addr) && Boundary(b.addr + b.size)
      && m[b.addr + 4] == TagWord(b) && Masked(m[b.addr + 4]) == b.size
      && (m[b.addr + 4] % 2 == 1 <==> b.free)
      && (m[b.addr] % 2 == 1 <==> k > 0 && bs[k - 1].free)
      && (k > 0 ==> Masked(m[b.addr]) == bs[k - 1].size && b.addr - bs[k - 1].size == bs[k - 1].addr)
      && (b.addr + b.size < End(m) <==> k + 1 < |bs|)
      && (k + 1 < |bs| ==>
           && b.addr + b.size == bs[k + 1].addr && bs[k + 1].addr + 8 <= End(m)
           && (m[bs[k + 1].addr + 4] % 2 == 1 <==> bs[k + 1].free) && Masked(m[bs[k + 1].addr + 4]) == bs[k + 1].size)
  {
    MirroredNeighbours(m, bs, k);
  }

  lemma MirroredNeighbours(m: seq<int>, bs: seq<Block>, k: nat)
    requires Mirrored(m, bs) && k < |bs|
    ensures var b := bs[k];
      && FIRST <= b.addr && b.addr + b.size <= End(m) && b.size >= 8 && Boundary(b.addr) && Boundary(b.addr + b.size)
      && m[b.addr + 4] == TagWord(b) && Masked(m[b.addr + 4]) == b.size
      && (m[b.addr + 4] % 2 == 1 <==> b.free)
      && (m[b.addr] % 2 == 1 <==> k > 0 && bs[k - 1].free)
      && (k > 0 ==> Masked(m[b.addr]) == bs[k - 1].size && b.addr - bs[k - 1].size == bs[k - 1].addr)
      && (b.addr + b.size < End(m) <==> k + 1 < |bs|)
      && (k + 1 < |bs| ==>
           && b.addr + b.size == bs[k + 1].addr && bs[k + 1].addr + 8 <= End(m)
           && (m[bs[k + 1].addr + 4] % 2 == 1 <==> bs[k + 1].free) && Masked(m[bs[k + 1].addr + 4]) == bs[k + 1].size)
  {
    assert Tagged(m, bs[k]);
    TileAt(bs, k, FIRST, End(m));
    TagBits(bs[k]);
    if k > 0 {
      assert Tagged(m, bs[k - 1]);
      TileAt(bs, k - 1, FIRST, End(m));
      TagBits(bs[k - 1]);
    } else {
      assert bs[k].addr == FIRST;
    }
    if k + 1 < |bs| {
      assert Tagged(m, bs[k + 1]);
      TileAt(bs, k + 1, FIRST, End(m));
      TagBits(bs[k + 1]);
    }
  }

  /** The free neighbours of block `k`. */
  function FreeSides(bs: seq<Block>, k: nat): set<int>
    requires k < |bs|
  {
    (if k > 0 && bs[k - 1].free then {bs[k - 1].addr} else {}) + (if k + 1 < |bs| && bs[k + 1].free then {bs[k + 1].addr} else {})
  }

  /** Take the free neighbours out of the tree; the result is the block that replaces all of them. */
  method Absorb(h: Memory, cur: int, ghost k: nat, ghost bs: seq<Block>, ghost ns: set<int>, ghost w: Tree)
    returns (newBlock: int, newSize: int, ghost ns': set<int>, ghost w': Tree)
    requires h.Valid() && HeapInv(h.Mem(), bs, ns, w, {}) && k < |bs| && !bs[k].free && bs[k].addr == cur
    modifies h.cells
    ensures HeapInv(h.Mem(), bs, ns', w', FreeSides(bs, k)) && ns' == ns - FreeSides(bs, k)
    ensures Block(newBlock, newSize, true) == Merged(bs, k)
    ensures OnlyLinks(old(h.Mem()), h.Mem(), ns)
  {
    hide HeapInv, OnlyLinks, Masked, TagWord, Aligned;
    ghost var m := h.Mem();
    ghost var out := {};
    InvLayout(m, bs, ns, w, {});
    Neighbours(m, bs, k);
    newBlock, newSize, ns', w' := cur, Masked(h.Get(cur + 4)), ns, w;
    OnlyLinksSame(m, ns);
    if h.Get(cur) % 2 == 1 {
      var size := Masked(h.Get(cur));
      newBlock := cur - size;
      ns', w' := Unlist(h, newBlock, bs[k - 1], bs, ns, w, {});
      out := {newBlock};
      assert {} + {newBlock} == out;
      newSize := newSize + size;
    }
    ghost var m1 := h.Mem();
    InvLayout(m1, bs, ns', w', out);
    Neighbours(m1, bs, k);
    var next := cur + Masked(h.Get(cur + 4));
    if next + 4 <= h.HeapHi() && h.Get(next + 4) % 2 == 1 {
      var size := Masked(h.Get(next + 4));
      ghost var ns1 := ns';
      ns', w' := Unlist(h, next, bs[k + 1], bs, ns', w', out);
      newSize := newSize + size;
      OnlyLinksMore(m1, h.Mem(), ns1, ns);
      OnlyLinksTrans(m, m1, h.Mem(), ns);
      out := out + {next};
    }
    assert out == FreeSides(bs, k) && ns' == ns - out;
  }

  lemma InvLayout(m: seq<int>, bs: seq<Block>, ns: set<int>, w: Tree, out: set<int>)
    requires HeapInv(m, bs, ns, w, out)
    ensures Layout(m, bs)
  {
  }

  lemma AbsorbedRegion(m: seq<int>, bs: seq<Block>, ns: set<int>, w: Tree, k: nat)
    requires k < |bs| && HeapInv(m, bs, ns, w, FreeSides(bs, k)) && !bs[k].free && ns !! FreeSides(bs, k)
    ensures var b := Merged(bs, k);
      && FIRST <= b.addr && b.addr + b.size <= End(m) && b.size >= 8 && b.size % 8 == 0 && Boundary(b.addr) && Boundary(b.addr + b.size)
      && Start(bs, First(bs, k), End(m)) == b.addr && Start(bs, Past(bs, k), End(m)) == b.addr + b.size
      && Outside(ns, b.addr, b.addr + b.size)
      && WellFormed(Release(bs, k), FIRST, End(m), LEAST)
  {
    hide Aligned, Boundary;
    var b := Merged(bs, k);
    MergedTiles(bs, k, FIRST, End(m));
    TilesSplit(bs, First(bs, k), FIRST, End(m));
    TilesSplit(bs, Past(bs, k), FIRST, End(m));
    StartAligned(bs, First(bs, k), End(m));
    StartAligned(bs, Past(bs, k), End(m));
    ReleaseWellFormed(bs, k, FIRST, End(m), LEAST);
    NodesOwned(m, bs, ns, w, FreeSides(bs, k));
    assert b == [b][0] && [b][1..] == [];
    forall a | a in ns ensures a + NODE_BYTES <= b.addr || b.addr + b.size <= a {
      AbsorbedApart(bs, ns, k, a, End(m));
    }
  }

  lemma AbsorbedApart(bs: seq<Block>, ns: set<int>, k: nat, a: int, to: int)
    requires Tiles(bs, FIRST, to) && k < |bs| && !bs[k].free && ns !! FreeSides(bs, k) && Owned(ns, bs) && a in ns
    ensures a + NODE_BYTES <= Merged(bs, k).addr || Merged(bs, k).addr + Merged(bs, k).size <= a
  {
    var s :| s >= LEAST && Block(a, s, true) in bs;
    var c := Block(a, s, true);
    var lo, hi := First(bs, k), Past(bs, k);
    var j :| 0 <= j < |bs| && bs[j] == c;
    MergedTiles(bs, k, FIRST, to);
    assert [Merged(bs, k)][1..] == [];
    assert !(lo <= j < hi);
    TileAt(bs, j, FIRST, to);
    if j < lo {
      TilesOrder(bs, j, lo, FIRST, to);
    } else {
      TileAt(bs, hi - 1, FIRST, to);
      TilesOrder(bs, hi - 1, j, FIRST, to);
    }
  }

  /** The freed block joins a free block that is large enough for a tree node, so that nobody writes its old header. */
  predicate HeaderStays(bs: seq<Block>, k: nat) {
    0 < k < |bs| && !bs[k].free && bs[k - 1].free && bs[k - 1].size >= LEAST
  }

  lemma StaleHeader(m0: seq<int>, m1: seq<int>, m2: seq<int>, m3: seq<int>, bs: seq<Block>, k: nat, ns: set<int>, w: Tree,
      ns': set<int>, t: int)
    requires HeapInv(m0, bs, ns, w, {}) && HeaderStays(bs, k) && OnlyLinks(m0, m1, ns)
    requires var b := Merged(bs, k); 0 <= b.addr && 8 <= b.size && b.addr + b.size < |m1| && m2 == m1[b.addr + b.size := t][b.addr + 4 := t]
    requires OnlyLinks(m2, m3, ns') && ns' <= ns + {Merged(bs, k).addr}
    ensures 0 <= bs[k].addr && bs[k].addr + 4 < |m0| && m3[bs[k].addr + 4] == m0[bs[k].addr + 4]
  {
    hide Aligned, Boundary, HeapInv, Layout, Listed, TreeOK, Tagged, Owned, Apart, Rep, RB, Sorted, OnlyLinks, LinkWord, Merged, Tiles;
    var x, b := bs[k].addr + 4, Merged(bs, k);
    InvParts(m0, bs, ns, w, {}, bs[k]);
    InvParts(m0, bs, ns, w, {}, bs[k - 1]);
    MergedAround(bs, k, End(m0));
    forall a | a in ns ensures !(a + 8 <= x < a + NODE_BYTES) {
      NodeElsewhere(m0, bs, ns, w, k, a);
    }
    NotLinked(m0, m1, ns, x);
    NotLinked(m2, m3, ns', x);
  }

  lemma NotLinked(m: seq<int>, m': seq<int>, ns: set<int>, x: int)
    requires OnlyLinks(m, m', ns) && NODE_BYTES <= x < |m| && forall a :: a in ns ==> !(a + 8 <= x < a + NODE_BYTES)
    ensures |m'| == |m| && m'[x] == m[x]
  {
  }

  lemma MergedAround(bs: seq<Block>, k: nat, to: int)
    requires Tiles(bs, FIRST, to) && HeaderStays(bs, k)
    ensures var b := Merged(bs, k);
      && FIRST <= b.addr == bs[k - 1].addr && b.addr + LEAST <= bs[k].addr && bs[k].addr + 8 <= b.addr + b.size
      && bs[k].addr + 8 <= to
  {
    TileAt(bs, k - 1, FIRST, to);
    TileAt(bs, k, FIRST, to);
    if k + 1 < |bs| {
      TileAt(bs, k + 1, FIRST, to);
    }
  }

  lemma NodeElsewhere(m: seq<int>, bs: seq<Block>, ns: set<int>, w: Tree, k: nat, a: int)
    requires HeapInv(m, bs, ns, w, {}) && k < |bs| && !bs[k].free && a in ns
    ensures a + NODE_BYTES <= bs[k].addr || bs[k].addr + bs[k].size <= a
  {
    NodesOwned(m, bs, ns, w, {});
    var s :| s >= LEAST && Block(a, s, true) in bs;
    BlocksApart(bs, Block(a, s, true), bs[k], FIRST, End(m));
  }

  /** `mm_free` on an allocated block. */
  method FreeUsed(h: Memory, cur: int, ghost k: nat, ghost bs: seq<Block>, ghost ns: set<int>, ghost w: Tree)
    returns (ghost ns': set<int>, ghost w': Tree)
    requires h.Valid() && HeapInv(h.Mem(), bs, ns, w, {}) && k < |bs| && !bs[k].free && bs[k].addr == cur
    modifies h.cells
    ensures HeapInv(h.Mem(), Release(bs, k), ns', w', {})
    ensures OthersSame(old(h.Mem()), h.Mem(), bs, First(bs, k), Past(bs, k))
    ensures HeaderStays(bs, k) ==> 0 <= cur && cur + 4 < old(h.brk) && h.Mem()[cur + 4] == old(h.Mem())[cur + 4]
  {
    hide HeapInv, OnlyLinks, Confined, TreeOK, Outside, OthersSame, Relisted, WellFormed, InOrder, Release, HeaderStays;
    ghost var m0, b := h.Mem(), Merged(bs, k);
    var newBlock, newSize;
    ghost var ns1, w1;
    newBlock, newSize, ns1, w1 := Absorb(h, cur, k, bs, ns, w);
    ghost var m1 := h.Mem();
    AbsorbedRegion(m1, bs, ns1, w1, k);
    InvTree(m1, bs, ns1, w1, FreeSides(bs, k));
    PutTags(h, newBlock, newSize, true);
    ghost var m2 := h.Mem();
    TagsConfined(m1, m2, ns, b.addr, b.addr + b.size, newBlock, newSize, TagWord(b));
    TreeKept(m1, m2, ns1, w1, b.addr, b.addr + b.size);
    ns', w' := Enlist(h, newBlock, b, ns1, w1);
    RelistedOne(InOrder(w1), InOrder(w'), b);
    Freed(m0, m1, m2, h.Mem(), bs, k, ns, w, ns1, w1, ns', w');
    if HeaderStays(bs, k) {
      StaleHeader(m0, m1, m2, h.Mem(), bs, k, ns, w, ns', TagWord(b));
    }
  }

  lemma Freed(m0: seq<int>, m1: seq<int>, m2: seq<int>, m3: seq<int>, bs: seq<Block>, k: nat, ns: set<int>, w: Tree,
      ns1: set<int>, w1: Tree, ns': set<int>, w': Tree)
    requires HeapInv(m0, bs, ns, w, {}) && k < |bs| && !bs[k].free && OnlyLinks(m0, m1, ns)
    requires HeapInv(m1, bs, ns1, w1, FreeSides(bs, k)) && ns1 == ns - FreeSides(bs, k)
    requires Confined(m1, m2, ns, Merged(bs, k).addr, Merged(bs, k).addr + Merged(bs, k).size) && |m2| == |m1|
    requires OnlyLinks(m2, m3, ns') && ns' == (if Merged(bs, k).size >= LEAST then ns1 + {Merged(bs, k).addr} else ns1)
    requires Tagged(m2, Merged(bs, k)) && TreeOK(m3, ns', w') && Relisted(InOrder(w1), InOrder(w'), [Merged(bs, k)])
    ensures HeapInv(m3, Release(bs, k), ns', w', {})
    ensures OthersSame(m0, m3, bs, First(bs, k), Past(bs, k))
  {
    hide HeapInv, Confined, TreeOK, Outside, Relisted, Rep, RB, Sorted, InOrder, Listed, WellFormed, OthersSame, OnlyLinks, Aligned, Boundary;
    var b := Merged(bs, k);
    AbsorbedRegion(m1, bs, ns1, w1, k);
    EnlistedRegion(m2, m3, ns, ns1, ns', b, b.addr);
    SameLength(m0, m1, ns);
    SameLength(m2, m3, ns');
    LinksConfined(m0, m1, ns, ns, b.addr, b.addr + b.size);
    ConfinedTrans(m0, m1, m2, ns, b.addr, b.addr + b.size);
    ConfinedTrans(m0, m2, m3, ns, b.addr, b.addr + b.size);
    InvListed(m1, bs, ns1, w1, FreeSides(bs, k));
    InvSplice(m0, m3, bs, ns, w, First(bs, k), Past(bs, k), [b], ns', InOrder(w1), w', FreeSides(bs, k));
  }

  lemma SameLength(m: seq<int>, m': seq<int>, ns: set<int>)
    requires OnlyLinks(m, m', ns)
    ensures |m| == |m'|
  {
  }

  // ---------- mm_check ----------

  /** In `m` some nodes may lack the free bit that they have in `m1`. */
  ghost predicate Unmarked(m: seq<int>, m1: seq<int>, ns: set<int>) {
    |m| == |m1| && forall x :: 0 <= x < |m| && m[x] != m1[x] ==> x - 4 in ns && m[x] == m1[x] - 1
  }

  ghost predicate AllMarked(m: seq<int>, ns: set<int>) {
    forall a :: a in ns ==> 0 <= a + 4 < |m| && m[a + 4] % 2 == 1
  }

  /** `rb_check_preorder_impl`: does every node of the subtree carry the free bit? */
  method CheckPreorder(h: Memory, node: int, ghost m1: seq<int>, ghost ns: set<int>, ghost t: Tree, ghost parent: int)
    returns (ok: bool)
    requires h.Valid() && TreeAt(m1, t, parent) && t.Node? && t.item.addr == node
    requires Unmarked(h.Mem(), m1, ns) && Apart(ns) && Addrs(t) <= ns
    ensures ok <==> AllMarked(h.Mem(), Addrs(t))
    decreases t
  {
    hide AllMarked, Unmarked, Apart, Addrs, TreeAt, Aligned;
    PreorderReads(h.Mem(), m1, ns, t, parent);
    KidsMarked(h.Mem(), t);
    if h.Get(node + 8) != NIL {
      ok := CheckPreorder(h, h.Get(node + 8), m1, ns, t.left, node);
      if !ok {
        return false;
      }
    }
    if h.Get(node + 4) % 2 != 1 {
      return false;
    }
    if h.Get(node + 12) != NIL {
      ok := CheckPreorder(h, h.Get(node + 12), m1, ns, t.right, node);
      if !ok {
        return false;
      }
    }
    return true;
  }

  lemma PreorderReads(m: seq<int>, m1: seq<int>, ns: set<int>, t: Tree, parent: int)
    requires TreeAt(m1, t, parent) && t.Node? && Unmarked(m, m1, ns) && Apart(ns) && Addrs(t) <= ns
    ensures var a := t.item.addr;
      && NODE_BYTES <= a && a + NODE_BYTES <= |m| && Aligned(a + 4) && Aligned(a + 8) && Aligned(a + 12)
      && m[a + 8] == Ptr(t.left) && m[a + 12] == Ptr(t.right)
      && (Ptr(t.left) == NIL <==> t.left == Leaf) && (Ptr(t.right) == NIL <==> t.right == Leaf)
      && (t.left.Node? ==> t.left.item.addr == Ptr(t.left)) && (t.right.Node? ==> t.right.item.addr == Ptr(t.right))
    ensures TreeAt(m1, t.left, t.item.addr) && TreeAt(m1, t.right, t.item.addr)
  {
    NodeBits(m1, t, parent);
    SameLengthMarked(m, m1, ns);
    AddrsOf(t);
    if t.left.Node? {
      NodeBits(m1, t.left, t.item.addr);
    }
    if t.right.Node? {
      NodeBits(m1, t.right, t.item.addr);
    }
    hide Unmarked, Apart, TreeAt, Aligned;
    LinksMarked(m, m1, ns, t.item.addr);
  }

  lemma SameLengthMarked(m: seq<int>, m1: seq<int>, ns: set<int>)
    requires Unmarked(m, m1, ns)
    ensures |m| == |m1|
  {
  }

  /** Only size words may differ. */
  lemma LinksMarked(m: seq<int>, m1: seq<int>, ns: set<int>, a: int)
    requires Unmarked(m, m1, ns) && Apart(ns) && a in ns && a + NODE_BYTES <= |m|
    ensures m[a + 8] == m1[a + 8] && m[a + 12] == m1[a + 12]
  {
  }

  lemma MarkedUnion(m: seq<int>, a: set<int>, b: set<int>)
    ensures AllMarked(m, a + b) <==> AllMarked(m, a) && AllMarked(m, b)
  {
    if AllMarked(m, a + b) {
      assert forall x :: x in a || x in b ==> x in a + b;
    }
  }

  lemma MarkedOne(m: seq<int>, a: int)
    ensures AllMarked(m, {a}) <==> 0 <= a + 4 < |m| && m[a + 4] % 2 == 1
  {
    assert a in {a};
  }

  lemma {:induction false} KidsMarked(m: seq<int>, t: Tree)
    requires t.Node?
    ensures t.item.addr in Addrs(t) && Addrs(t.left) <= Addrs(t) && Addrs(t.right) <= Addrs(t)
    ensures AllMarked(m, Addrs(t)) <==>
      AllMarked(m, Addrs(t.left)) && (0 <= t.item.addr + 4 < |m| && m[t.item.addr + 4] % 2 == 1) && AllMarked(m, Addrs(t.right))
    ensures t.left == Leaf ==> AllMarked(m, Addrs(t.left))
    ensures t.right == Leaf ==> AllMarked(m, Addrs(t.right))
  {
    NoneMarked(m);
    AddrsOf(t);
    hide *;
    MarkedOne(m, t.item.addr);
    MarkedUnion(m, {t.item.addr}, Addrs(t.left));
    MarkedUnion(m, {t.item.addr} + Addrs(t.left), Addrs(t.right));
  }

  lemma AddrsOf(t: Tree)
    requires t.Node?
    ensures Addrs(t) == {t.item.addr} + Addrs(t.left) + Addrs(t.right)
    ensures (t.left == Leaf ==> Addrs(t.left) == {}) && (t.right == Leaf ==> Addrs(t.right) == {})
  {
  }

  lemma NoneMarked(m: seq<int>)
    ensures AllMarked(m, {})
  {
  }

  lemma NodeBits(m: seq<int>, t: Tree, parent: int)
    requires TreeAt(m, t, parent) && t.Node?
    ensures NODE_BYTES <= t.item.addr && Readable(m, t.item.addr) && m[t.item.addr + 4] % 2 == 1
    ensures m[t.item.addr + 8] == Ptr(t.left) && m[t.item.addr + 12] == Ptr(t.right)
    ensures TreeAt(m, t.left, t.item.addr) && TreeAt(m, t.right, t.item.addr)
  {
    hide TreeAt;
    NodeWords(m, t, parent);
    OddTag(t.item.size);
  }

  lemma NodeWords(m: seq<int>, t: Tree, parent: int)
    requires TreeAt(m, t, parent) && t.Node?
    ensures NodeAt(m, t.item, t.red, Ptr(t.left), Ptr(t.right), parent)
    ensures TreeAt(m, t.left, t.item.addr) && TreeAt(m, t.right, t.item.addr)
  {
  }

  lemma OddTag(size: int)
    requires size % 8 == 0
    ensures (size + 1) % 2 == 1
  {
    Eights(size / 8);
    assert size == 8 * (size / 8);
  }

  lemma CheckStart(m: seq<int>, bs: seq<Block>, ns: set<int>, w: Tree)
    requires HeapInv(m, bs, ns, w, {})
    ensures FIRST <= End(m) && m[NIL + 8] == Ptr(w)
    ensures Rep(m, ns, Top, w) && RB(w) && Sorted(InOrder(w)) && Layout(m, bs)
  {
    TilesBounds(bs, FIRST, End(m));
  }

  /** A heap that `mm_check` can walk. */
  ghost predicate Walkable(m: seq<int>, m1: seq<int>, bs: seq<Block>, ns: set<int>, w: Tree) {
    Mirrored(m, bs) && Rep(m1, ns, Top, w) && Sorted(InOrder(w)) && Unmarked(m, m1, ns)
  }

  /** Every free block that is large enough is a node. */
  ghost predicate AllListed(bs: seq<Block>, ns: set<int>) {
    forall b :: b in bs && b.free && b.size >= LEAST ==> b.addr in ns
  }

  /** What `mm_check` looks for in block `k`. */
  ghost predicate Passes(bs: seq<Block>, ns: set<int>, k: nat)
    requires k < |bs|
  {
    bs[k].free ==> !(k > 0 && bs[k - 1].free) && (bs[k].size >= LEAST ==> bs[k].addr in ns)
  }

  lemma AllPass(bs: seq<Block>, ns: set<int>)
    ensures Coalesced(bs) && AllListed(bs, ns) <==> forall k: nat {:trigger Passes(bs, ns, k)} :: k < |bs| ==> Passes(bs, ns, k)
  {
    if Coalesced(bs) && AllListed(bs, ns) {
      forall k: nat | k < |bs| ensures Passes(bs, ns, k) {
        assert bs[k] in bs;
      }
    }
    if forall k: nat {:trigger Passes(bs, ns, k)} :: k < |bs| ==> Passes(bs, ns, k) {
      forall b | b in bs && b.free && b.size >= LEAST ensures b.addr in ns {
        var k :| 0 <= k < |bs| && bs[k] == b;
        assert Passes(bs, ns, k);
      }
      forall i | 0 < i < |bs| ensures !(bs[i - 1].free && bs[i].free) {
        assert Passes(bs, ns, i);
      }
    }
  }

  lemma WalkStart(m: seq<int>, m1: seq<int>, bs: seq<Block>, ns: set<int>, w: Tree)
    requires Walkable(m, m1, bs, ns, w)
    ensures FIRST <= End(m) && m[NIL + 8] == Ptr(w) && TreeAt(m1, w, NIL) && (w.Node? <==> Ptr(w) != NIL)
    ensures Apart(ns) && Addrs(w) == ns && Unmarked(m, m1, ns) && Mirrored(m, bs) && (w == Leaf ==> AllMarked(m, ns))
    ensures Start(bs, 0, End(m)) == FIRST && Start(bs, |bs|, End(m)) == End(m)
  {
    TilesSplit(bs, 0, FIRST, End(m));
  }

  /** If no free bit is missing, the tree is as it should be. */
  lemma WalkMarked(m: seq<int>, m1: seq<int>, bs: seq<Block>, ns: set<int>, w: Tree)
    requires Walkable(m, m1, bs, ns, w) && AllMarked(m, ns)
    ensures m == m1 && Rep(m, ns, Top, w) && Sorted(InOrder(w))
  {
    hide Mirrored, Aligned, InOrder, Sorted, TreeAt, Uniq, NilAt;
    forall x | 0 <= x < |m| ensures m[x] == m1[x] {
      if m[x] != m1[x] {
        InOrderAddrs(w);
        var i :| i in InOrder(w) && i.addr == x - 4;
        ItemsInMemory(m1, w, NIL, i);
        OddTag(i.size);
        assert false;
      }
    }
  }

  /** Where the next block is. */
  lemma WalkNext(m: seq<int>, bs: seq<Block>, k: nat)
    requires Mirrored(m, bs) && k < |bs|
    ensures bs[k].addr + bs[k].size == Start(bs, k + 1, End(m)) && bs[k].addr < End(m) && bs[k].addr == Start(bs, k, End(m))
  {
    TileAt(bs, k, FIRST, End(m));
  }

  /** `mm_check` accepts a heap exactly if tree nodes are marked as free, no two neighbours are free, and every large free
      block is in the tree. */
  method CheckHeap(h: Memory, ghost m1: seq<int>, ghost bs: seq<Block>, ghost ns: set<int>, ghost w: Tree) returns (ok: bool)
    requires h.Valid() && Walkable(h.Mem(), m1, bs, ns, w)
    ensures ok <==> AllMarked(h.Mem(), ns) && Coalesced(bs) && AllListed(bs, ns)
  {
    hide Walkable, Mirrored, Rep, Sorted, InOrder, AllMarked, Unmarked, Apart, Addrs, TreeAt, Coalesced, AllListed, Passes, Masked, Tiles;
    ghost var m := h.Mem();
    WalkStart(m, m1, bs, ns, w);
    AllPass(bs, ns);
    NilAligned();
    var root := h.Get(NIL + 8);
    if root != NIL {
      ok := CheckPreorder(h, root, m1, ns, w, NIL);
      if !ok {
        return false;
      }
    }
    WalkMarked(m, m1, bs, ns, w);
    var cur := h.HeapLo() + NODE_BYTES;
    var end := h.HeapHi() - 3;
    ghost var k := 0;
    while cur < end
      invariant 0 <= k <= |bs| && cur == Start(bs, k, End(m))
      invariant forall j: nat {:trigger Passes(bs, ns, j)} :: j < k ==> Passes(bs, ns, j)
      decreases |bs| - k
    {
      MirroredNeighbours(m, bs, k);
      WalkNext(m, bs, k);
      PassesWhen(bs, ns, k);
      if h.Get(cur + 4) % 2 == 1 {
        if h.Get(cur) % 2 == 1 {
          return false;
        }
        if Masked(h.Get(cur + 4)) >= LEAST {
          var found := FindExact(h, cur, ns, w);
          if !found {
            return false;
          }
        }
      }
      cur := cur + Masked(h.Get(cur + 4));
      k := k + 1;
    }
    if k < |bs| {
      WalkNext(m, bs, k);
    }
    return true;
  }

  lemma PassesWhen(bs: seq<Block>, ns: set<int>, k: nat)
    requires k < |bs|
    ensures Passes(bs, ns, k) <==> (bs[k].free ==> !(k > 0 && bs[k - 1].free) && (bs[k].size >= LEAST ==> bs[k].addr in ns))
  {
  }

  lemma NilAligned()
    ensures Aligned(NIL + 8)
  {
  }

  lemma InvMarked(m: seq<int>, ns: set<int>, w: Tree)
    requires Rep(m, ns, Top, w)
    ensures AllMarked(m, ns) && forall a :: a in ns <==> exists x :: x in InOrder(w) && x.addr == a
  {
    InOrderAddrs(w);
    hide Aligned, InOrder;
    forall a | a in ns ensures 0 <= a + 4 < |m| && m[a + 4] % 2 == 1 {
      var i :| i in InOrder(w) && i.addr == a;
      ItemsInMemory(m, w, NIL, i);
      OddTag(i.size);
    }
  }

  lemma InvAllListed(bs: seq<Block>, xs: seq<Item>, ns: set<int>)
    requires Listed(bs, xs, {}) && forall a :: a in ns <==> exists x :: x in xs && x.addr == a
    ensures AllListed(bs, ns)
  {
    forall b | b in bs && b.free && b.size >= LEAST ensures b.addr in ns {
      FreeListed(bs, xs, b);
    }
  }

  lemma InvMirrored(m: seq<int>, bs: seq<Block>)
    requires Layout(m, bs)
    ensures Mirrored(m, bs) && Coalesced(bs)
  {
  }

  /** Every heap that satisfies the invariant passes. */
  lemma InvPasses(m: seq<int>, bs: seq<Block>, ns: set<int>, w: Tree)
    requires HeapInv(m, bs, ns, w, {})
    ensures Walkable(m, m, bs, ns, w) && AllMarked(m, ns) && Coalesced(bs) && AllListed(bs, ns)
  {
    hide Aligned, Layout, Rep, Sorted, InOrder, Listed, AllMarked, AllListed, Mirrored, Coalesced;
    InvMirrored(m, bs);
    InvMarked(m, ns, w);
    InvAllListed(bs, InOrder(w), ns);
  }

  // ---------- the allocator ----------

  /** Block `k` is a best fit: smallest sufficient size, lowest address among equals. */
  ghost predicate BestBlock(bs: seq<Block>, k: nat, need: int) {
    && k < |bs| && bs[k].free && bs[k].size >= need
    && forall j :: 0 <= j < |bs| && bs[j].free && bs[j].size >= need ==>
         bs[k].size < bs[j].size || (bs[k].size == bs[j].size && k <= j)
  }

  /** The best fit in the tree is the best fit in the whole heap, small free blocks included. */
  lemma FitInHeap(m: seq<int>, bs: seq<Block>, ns: set<int>, w: Tree, need: int, best: int) returns (k: nat)
    requires HeapInv(m, bs, ns, w, {}) && BestFit(InOrder(w), need, best) && need >= LEAST
    ensures best == NIL <==> !SomeFit(bs, need)
    ensures best != NIL ==> BestBlock(bs, k, need) && bs[k].addr == best
  {
    InvListed(m, bs, ns, w, {});
    InvTiles(m, bs, ns, w, {});
    hide HeapInv, Tiles, InOrder, WellFormed, Listed, BestBlock;
    k := 0;
    var xs := InOrder(w);
    if best == NIL {
      forall b | b in bs && b.free ensures b.size < need {
        if b.size >= LEAST {
          FreeListed(bs, xs, b);
        }
      }
    } else {
      var i :| i in xs && i.addr == best && i.size >= need && forall x :: x in xs && x.size >= need ==> x == i || Less(i, x);
      k := BestInHeap(bs, xs, need, i, End(m));
      BestFits(bs, k, need);
    }
  }

  lemma FreeListed(bs: seq<Block>, xs: seq<Item>, b: Block)
    requires Listed(bs, xs, {}) && b in bs && b.free && b.size >= LEAST
    ensures Item(b.size, b.addr) in xs
  {
  }

  lemma BestFits(bs: seq<Block>, k: nat, need: int)
    requires BestBlock(bs, k, need)
    ensures SomeFit(bs, need)
  {
  }

  lemma BestInHeap(bs: seq<Block>, xs: seq<Item>, need: int, i: Item, to: int) returns (k: nat)
    requires Tiles(bs, FIRST, to) && Listed(bs, xs, {}) && need >= LEAST && i in xs && i.size >= need
    requires forall x :: x in xs && x.size >= need ==> x == i || Less(i, x)
    ensures BestBlock(bs, k, need) && bs[k].addr == i.addr
  {
    var b := Block(i.addr, i.size, true);
    assert b in bs;
    k :| 0 <= k < |bs| && bs[k] == b;
    hide Listed, Tiles;
    forall j | 0 <= j < |bs| && bs[j].free && bs[j].size >= need
      ensures bs[k].size < bs[j].size || (bs[k].size == bs[j].size && k <= j)
    {
      FreeListed(bs, xs, bs[j]);
      if j < k {
        TilesOrder(bs, j, k, FIRST, to);
        TileAt(bs, j, FIRST, to);
      }
    }
  }

  /** Every allocated block of `bs` except those at `gone` is still there, with the same payload. */
  ghost predicate Preserved(m: seq<int>, m': seq<int>, bs: seq<Block>, bs': seq<Block>, gone: set<int>) {
    forall b :: b in bs && !b.free && b.addr !in gone ==> b in bs' && SameBlock(m, m', b)
  }

  lemma SplicePreserved(m: seq<int>, m': seq<int>, bs: seq<Block>, lo: nat, hi: nat, mid: seq<Block>, gone: set<int>)
    requires lo <= hi <= |bs| && OthersSame(m, m', bs, lo, hi)
    requires forall j :: lo <= j < hi && !bs[j].free ==> bs[j].addr in gone
    ensures Preserved(m, m', bs, Splice(bs, lo, hi, mid), gone)
  {
    forall b | b in bs && !b.free && b.addr !in gone ensures b in Splice(bs, lo, hi, mid) && SameBlock(m, m', b) {
      var j :| 0 <= j < |bs| && bs[j] == b;
      assert j < lo ==> bs[..lo][j] == b;
      assert hi <= j ==> bs[hi..][j - hi] == b;
      SpliceMembers(bs, lo, hi, mid, b);
    }
  }

  lemma GrowPreserved(m: seq<int>, m': seq<int>, bs: seq<Block>, to: int, need: int)
    requires OthersSame(m, m', bs, |Kept(bs)|, |bs|)
    ensures Preserved(m, m', bs, Grow(bs, to, need), {})
  {
    SplicePreserved(m, m', bs, |Kept(bs)|, |bs|, [Block(GrowStart(bs, to), need, false)], {});
    assert Kept(bs) == bs[..|Kept(bs)|] && bs[|bs|..] == [];
    assert Splice(bs, |Kept(bs)|, |bs|, [Block(GrowStart(bs, to), need, false)]) == Grow(bs, to, need);
  }

  /** Payloads are aligned, lie inside the heap and do not overlap. */
  lemma Payloads(m: seq<int>, bs: seq<Block>, ns: set<int>, w: Tree, b: Block, c: Block)
    requires HeapInv(m, bs, ns, w, {}) && b in bs && c in bs
    ensures (b.addr + HEADER) % 8 == 0 && FIRST < b.addr + HEADER && b.addr + b.size + 4 <= |m|
    ensures b == c || b.addr + b.size < c.addr + HEADER || c.addr + c.size < b.addr + HEADER
  {
    hide Aligned, Boundary;
    BlocksApart(bs, b, c, FIRST, End(m));
  }

  /** Words inside the payload of an allocated block matter to nobody but its owner. */
  lemma StoreInv(m: seq<int>, bs: seq<Block>, ns: set<int>, w: Tree, b: Block, a: int, v: int)
    requires HeapInv(m, bs, ns, w, {}) && b in bs && !b.free && b.addr + HEADER <= a && a + 4 <= b.addr + b.size
    ensures 0 <= a && a + 4 <= |m| && HeapInv(m[a := v], bs, ns, w, {})
    ensures forall c :: c in bs && c != b ==> SameBlock(m, m[a := v], c)
  {
    var m' := m[a := v];
    InvParts(m, bs, ns, w, {}, b);
    if b.addr in ns {
      var s :| s >= LEAST && Block(b.addr, s, true) in bs;
      BlocksApart(bs, b, Block(b.addr, s, true), FIRST, End(m));
      assert false;
    }
    OutsideBlock(bs, ns, b, FIRST, End(m));
    TreeKept(m, m', ns, w, b.addr, b.addr + b.size);
    forall c | c in bs ensures Tagged(m', c) && (c != b ==> SameBlock(m, m', c)) {
      assert Tagged(m, c);
      BlocksApart(bs, b, c, FIRST, End(m));
    }
  }

  class Allocator {
    const heap: Memory
    /** The partition of the heap, and the nodes and shape of the tree of free blocks. */
    ghost var blocks: seq<Block>
    ghost var nodes: set<int>
    ghost var tree: Tree

    ghost predicate Valid()
      reads this, heap, heap.cells
    {
      heap.Valid() && HeapInv(heap.Mem(), blocks, nodes, tree, {})
    }

    constructor (maxHeap: nat)
      requires maxHeap <= INT_MAX
      ensures heap.Valid() && heap.brk == 0 && heap.cells.Length == maxHeap
      ensures fresh(heap) && fresh(heap.cells)
    {
      heap := new Memory(maxHeap);
      blocks, nodes, tree := [], {}, Leaf;
    }

    /** `mm_init` on an empty heap. */
    method Init() returns (r: int)
      requires heap.Valid() && heap.brk == 0
      modifies this, heap`brk, heap.cells
      ensures r == 0 || r == -1
      ensures r == -1 <==> heap.cells.Length < 28
      ensures r == -1 ==> heap.brk == 0
      ensures r == 0 ==> Valid() && blocks == [] && heap.brk == 28
    {
      var p := heap.Sbrk(4 + NODE_BYTES);
      if p == FAILED {
        return -1;
      }
      heap.Put(p + 12, p);
      heap.Put(p + 8, p);
      heap.Put(p + 20, 0);
      heap.Put(p + NODE_BYTES, 0);
      blocks, nodes, tree := [], {}, Leaf;
      return 0;
    }

    /** `mm_malloc` can serve the request: a free block fits or the heap may still grow. */
    ghost predicate Room(size: int)
      requires Valid()
      reads this, heap, heap.cells
    {
      SomeFit(blocks, BlockSize(size)) || GrowStart(blocks, End(heap.Mem())) + BlockSize(size) + 4 <= heap.cells.Length
    }

    /** `mm_malloc`: best fit over all free blocks, or the least possible growth of the heap. */
    method Malloc(size: int) returns (p: int, ghost k: nat)
      requires Valid() && 0 <= size < TWO32 && Room(size)
      modifies this, heap`brk, heap.cells
      ensures Valid()
      ensures old(SomeFit(blocks, BlockSize(size))) ==>
        && BestBlock(old(blocks), k, BlockSize(size)) && p == old(blocks)[k].addr + HEADER
        && blocks == Carve(old(blocks), k, BlockSize(size)) && heap.brk == old(heap.brk)
      ensures !old(SomeFit(blocks, BlockSize(size))) ==>
        var start := old(GrowStart(blocks, End(heap.Mem())));
        && blocks == Grow(old(blocks), old(End(heap.Mem())), BlockSize(size)) && p == start + HEADER
        && heap.brk == old(heap.brk) + BlockSize(size)
             - old(if blocks != [] && blocks[|blocks| - 1].free then blocks[|blocks| - 1].size else 0)
      ensures size <= TWO32 - 16 ==> LeastSize(BlockSize(size), size, 24)
      ensures Block(p - HEADER, BlockSize(size), false) in blocks
      ensures Preserved(old(heap.Mem()), heap.Mem(), old(blocks), blocks, {})
    {
      hide HeapInv, BestFit, BestBlock, SomeFit, OthersSame, Preserved, Sorted, InOrder, Rep, RB, Layout, TreeAt, Pow2;
      ghost var m, bs := heap.Mem(), blocks;
      BlockSizeFits(size);
      CheckStart(m, bs, nodes, tree);
      var need := BlockSize(size);
      ghost var walk;
      p, walk := Find(heap, need, nodes, tree);
      k := FitInHeap(m, bs, nodes, tree, need, p);
      if p == NIL {
        NoFit(bs, need);
        p, nodes, tree := TakeGrown(heap, need, bs, nodes, tree);
        blocks := Grow(bs, End(m), need);
        GrowPreserved(m, heap.Mem(), bs, End(m), need);
        LastSize(m, bs);
      } else {
        BestIsFree(bs, k, need);
        nodes, tree := TakeFit(heap, p, need, k, bs, nodes, tree);
        blocks := Carve(bs, k, need);
        SplicePreserved(m, heap.Mem(), bs, k, k + 1, Cut(bs[k], need), {});
        assert Cut(bs[k], need)[0] in blocks;
      }
      p := p + HEADER;
    }

    /** `mm_free`: the block merges with its free neighbours; freeing a free block does nothing. If the block before it
        was free and large, its old header still says that it is allocated. */
    method Free(ptr: int)
      requires Valid() && exists b :: b in blocks && b.addr == ptr - HEADER
      modifies this, heap.cells
      ensures Valid() && heap.brk == old(heap.brk)
      ensures var k := old(IndexOf(blocks, ptr - HEADER));
        if old(blocks)[k].free then blocks == old(blocks) && heap.Mem() == old(heap.Mem())
        else blocks == Release(old(blocks), k) && Preserved(old(heap.Mem()), heap.Mem(), old(blocks), blocks, {ptr - HEADER})
      ensures old(HeaderStays(blocks, IndexOf(blocks, ptr - HEADER))) ==> 4 <= ptr && ptr - 4 < heap.brk && heap.Mem()[ptr - 4] % 2 == 0
    {
      hide HeapInv, OthersSame, Preserved, Layout, Release, Boundary;
      ghost var m, bs, k := heap.Mem(), blocks, IndexOf(blocks, ptr - HEADER);
      InvLayout(m, bs, nodes, tree, {});
      Neighbours(m, bs, k);
      var cur := ptr - HEADER;
      if heap.Get(cur + 4) % 2 == 1 {
        return;
      }
      nodes, tree := FreeUsed(heap, cur, k, bs, nodes, tree);
      blocks := Release(bs, k);
      ReleasePreserved(m, heap.Mem(), bs, k);
    }

    /** The owner of an allocated block stores a word in its payload. */
    method Store(a: int, v: int, ghost b: Block)
      requires Valid() && b in blocks && !b.free && b.addr + HEADER <= a && Aligned(a) && a + 4 <= b.addr + b.size
      modifies heap.cells
      ensures Valid() && heap.Mem() == old(heap.Mem())[a := v]
      ensures forall c :: c in blocks && c != b ==> SameBlock(old(heap.Mem()), heap.Mem(), c)
    {
      StoreInv(heap.Mem(), blocks, nodes, tree, b, a, v);
      heap.Put(a, v);
    }

    /** `mm_check` returns 1 in every state. */
    method Check() returns (ok: bool)
      requires Valid()
      ensures ok
    {
      InvPasses(heap.Mem(), blocks, nodes, tree);
      ok := CheckHeap(heap, heap.Mem(), blocks, nodes, tree);
    }
  }

  lemma LastSize(m: seq<int>, bs: seq<Block>)
    requires Layout(m, bs)
    ensures GrowStart(bs, End(m)) == End(m) - if bs != [] && bs[|bs| - 1].free then bs[|bs| - 1].size else 0
  {
    if bs != [] {
      TileAt(bs, |bs| - 1, FIRST, End(m));
    }
  }

  lemma NoFit(bs: seq<Block>, need: int)
    requires !SomeFit(bs, need)
    ensures forall b :: b in bs && b.free ==> b.size < need
  {
  }

  lemma BestIsFree(bs: seq<Block>, k: nat, need: int)
    requires BestBlock(bs, k, need)
    ensures k < |bs| && bs[k].free && bs[k].size >= need
  {
  }

  lemma ReleasePreserved(m: seq<int>, m': seq<int>, bs: seq<Block>, k: nat)
    requires k < |bs| && OthersSame(m, m', bs, First(bs, k), Past(bs, k))
    ensures Preserved(m, m', bs, Release(bs, k), {bs[k].addr})
  {
    SplicePreserved(m, m', bs, First(bs, k), Past(bs, k), [Merged(bs, k)], {bs[k].addr});
  }
}
