/** Boundary tags, blocks and the tree of free blocks together: the heap of `mm_rbtree_ref.c`. */
module RbHeap {
  import opened Common
  import opened Memlib
  import opened Blocks
  import opened RbModel
  import opened RbMem
  import opened RbInsert

  /** The first block starts after the nil node; the last word of the heap belongs to no block. */
  const FIRST := 24
  const LEAST := 24

  /** The size word of a block: its size with the free bit. */
  function TagWord(b: Block): int {
    b.size + (if b.free then 1 else 0)
  }

  /** The tag stands in the header of the aligned block and is mirrored in the header of the next block. */
  ghost predicate Tagged(m: seq<int>, b: Block) {
    && 0 <= b.addr && b.size >= 8 && b.addr + b.size < |m| && Boundary(b.addr) && Boundary(b.addr + b.size)
    && m[b.addr + 4] == TagWord(b) && m[b.addr + b.size] == TagWord(b)
  }

  /** Blocks start at multiples of eight. */
  lemma StartAligned(bs: seq<Block>, k: nat, to: int)
    requires Tiles(bs, FIRST, to) && k <= |bs|
    ensures Start(bs, k, to) % 8 == 0 && Boundary(Start(bs, k, to))
  {
    TilesSplit(bs, k, FIRST, to);
    MultipleSum(FIRST, Start(bs, k, to) - FIRST);
  }

  function End(m: seq<int>): int {
    |m| - 4
  }

  ghost predicate Layout(m: seq<int>, bs: seq<Block>) {
    && FIRST + 4 <= |m| && m[FIRST] == 0
    && WellFormed(bs, FIRST, End(m), LEAST)
    && forall b :: b in bs ==> Tagged(m, b)
  }

  /** Blocks tile the heap and their tags are mirrored; nothing is said about free neighbours. */
  ghost predicate Mirrored(m: seq<int>, bs: seq<Block>) {
    FIRST + 4 <= |m| && m[FIRST] == 0 && Tiles(bs, FIRST, End(m)) && forall b :: b in bs ==> Tagged(m, b)
  }

  ghost predicate TreeOK(m: seq<int>, ns: set<int>, w: Tree) {
    Rep(m, ns, Top, w) && RB(w) && Sorted(InOrder(w))
  }

  /** `xs` are the free blocks that are large enough to be tree nodes, except those at `out`. */
  ghost predicate Listed(bs: seq<Block>, xs: seq<Item>, out: set<int>) {
    forall x :: x in xs <==> Block(x.addr, x.size, true) in bs && x.size >= LEAST && x.addr !in out
  }

  ghost predicate HeapInv(m: seq<int>, bs: seq<Block>, ns: set<int>, w: Tree, out: set<int>) {
    Layout(m, bs) && TreeOK(m, ns, w) && Listed(bs, InOrder(w), out)
  }

  /** Every tree node is a large free block. */
  ghost predicate Owned(ns: set<int>, bs: seq<Block>) {
    forall a :: a in ns ==> exists s :: s >= LEAST && Block(a, s, true) in bs
  }

  lemma InvTiles(m: seq<int>, bs: seq<Block>, ns: set<int>, w: Tree, out: set<int>)
    requires HeapInv(m, bs, ns, w, out)
    ensures WellFormed(bs, FIRST, End(m), LEAST) && Tiles(bs, FIRST, End(m)) && FIRST + 4 <= |m|
  {
  }

  lemma NodesOwned(m: seq<int>, bs: seq<Block>, ns: set<int>, w: Tree, out: set<int>)
    requires HeapInv(m, bs, ns, w, out)
    ensures Owned(ns, bs)
  {
    InOrderAddrs(w);
    forall a | a in ns ensures exists s :: s >= LEAST && Block(a, s, true) in bs {
      var x :| x in InOrder(w) && x.addr == a;
      assert Block(a, x.size, true) in bs;
    }
  }

  // ---------- what an operation may change ----------

  /** Only link words of `ns` and nil, and words of the blocks between `lo` and `hi`, may differ. */
  ghost predicate Confined(m: seq<int>, m': seq<int>, ns: set<int>, lo: int, hi: int) {
    |m| <= |m'| && forall x :: 0 <= x < |m| && m[x] != m'[x] ==> lo < x <= hi || LinkWord(ns, x)
  }

  lemma ConfinedTrans(m0: seq<int>, m1: seq<int>, m2: seq<int>, ns: set<int>, lo: int, hi: int)
    requires Confined(m0, m1, ns, lo, hi) && Confined(m1, m2, ns, lo, hi)
    ensures Confined(m0, m2, ns, lo, hi)
  {
  }

  lemma LinksConfined(m: seq<int>, m': seq<int>, ns: set<int>, all: set<int>, lo: int, hi: int)
    requires OnlyLinks(m, m', ns)
    requires forall a :: a in ns ==> a in all || (lo <= a && a + NODE_BYTES <= hi)
    ensures Confined(m, m', all, lo, hi)
  {
    forall x | 0 <= x < |m| && m[x] != m'[x] ensures lo < x <= hi || LinkWord(all, x) {
      assert LinkWord(ns, x);
    }
  }

  /** The tags are the same, and so is the payload of an allocated block. */
  ghost predicate SameBlock(m: seq<int>, m': seq<int>, b: Block) {
    && 0 <= b.addr && b.size >= 8 && b.addr + b.size < |m| && b.addr + b.size < |m'|
    && m'[b.addr + 4] == m[b.addr + 4] && m'[b.addr + b.size] == m[b.addr + b.size]
    && (!b.free ==> forall x :: b.addr + 8 <= x < b.addr + b.size ==> m'[x] == m[x])
  }

  lemma Spared(m: seq<int>, m': seq<int>, bs: seq<Block>, ns: set<int>, lo: int, hi: int, b: Block)
    requires Layout(m, bs) && Owned(ns, bs) && Confined(m, m', ns, lo, hi)
    requires b in bs && (b.addr + b.size <= lo || hi <= b.addr)
    ensures SameBlock(m, m', b)
  {
    BlocksApart(bs, b, b, FIRST, End(m));
    forall x | b.addr < x <= b.addr + b.size && m'[x] != m[x] ensures b.free && b.addr + 8 <= x < b.addr + b.size {
      assert LinkWord(ns, x);
      var a :| a in ns && a + 8 <= x < a + NODE_BYTES;
      var s :| s >= LEAST && Block(a, s, true) in bs;
      BlocksApart(bs, b, Block(a, s, true), FIRST, End(m));
    }
  }

  /** The header word before the first block stays. */
  lemma FirstWord(m: seq<int>, m': seq<int>, ns: set<int>, lo: int, hi: int)
    requires Confined(m, m', ns, lo, hi) && FIRST < |m| && lo >= FIRST && Apart(ns)
    ensures m'[FIRST] == m[FIRST]
  {
  }

  /** Blocks `lo..hi` were replaced by `mid`; every other block kept its tags. */
  lemma LayoutSplice(m: seq<int>, m': seq<int>, bs: seq<Block>, ns: set<int>, lo: nat, hi: nat, mid: seq<Block>)
    requires Layout(m, bs) && Owned(ns, bs) && Apart(ns) && lo <= hi <= |bs|
    requires Confined(m, m', ns, Start(bs, lo, End(m)), Start(bs, hi, End(m)))
    requires WellFormed(Splice(bs, lo, hi, mid), FIRST, End(m'), LEAST)
    requires forall b :: b in mid ==> Tagged(m', b)
    ensures Layout(m', Splice(bs, lo, hi, mid))
    ensures forall b :: b in bs[..lo] || b in bs[hi..] ==> SameBlock(m, m', b)
  {
    var l, r := Start(bs, lo, End(m)), Start(bs, hi, End(m));
    TilesSplit(bs, lo, FIRST, End(m));
    TilesSplit(bs, hi, FIRST, End(m));
    FirstWord(m, m', ns, l, r);
    forall b | b in bs[..lo] || b in bs[hi..] ensures SameBlock(m, m', b) {
      if b in bs[..lo] {
        BlocksApart(bs[..lo], b, b, FIRST, l);
      } else {
        BlocksApart(bs[hi..], b, b, r, End(m));
      }
      Spared(m, m', bs, ns, l, r, b);
    }
    forall b | b in Splice(bs, lo, hi, mid) ensures Tagged(m', b) {
      SpliceMembers(bs, lo, hi, mid, b);
      if b in bs[..lo] || b in bs[hi..] {
        assert Tagged(m, b) && SameBlock(m, m', b);
      }
    }
  }

  /** Writing link words of tree nodes leaves all blocks as they are. */
  lemma LayoutLinks(m: seq<int>, m': seq<int>, bs: seq<Block>, ns: set<int>)
    requires Layout(m, bs) && Owned(ns, bs) && Apart(ns) && OnlyLinks(m, m', ns)
    ensures Layout(m', bs)
  {
    LinksConfined(m, m', ns, ns, FIRST, FIRST);
    FirstWord(m, m', ns, FIRST, FIRST);
    forall b | b in bs ensures Tagged(m', b) {
      BlocksApart(bs, b, b, FIRST, End(m));
      Spared(m, m', bs, ns, FIRST, FIRST, b);
      assert Tagged(m, b);
    }
  }

  /** No node of `ns` lies between `lo` and `hi`. */
  ghost predicate Outside(ns: set<int>, lo: int, hi: int) {
    forall a :: a in ns ==> a + NODE_BYTES <= lo || hi <= a
  }

  lemma OutsideBlock(bs: seq<Block>, ns: set<int>, b: Block, from: int, to: int)
    requires Tiles(bs, from, to) && Owned(ns, bs) && b in bs && b.addr !in ns
    ensures Outside(ns, b.addr, b.addr + b.size)
  {
    forall a | a in ns ensures a + NODE_BYTES <= b.addr || b.addr + b.size <= a {
      var s :| s >= LEAST && Block(a, s, true) in bs;
      BlocksApart(bs, b, Block(a, s, true), from, to);
    }
  }

  /** A tree survives writes to a region without nodes. */
  lemma TreeKept(m: seq<int>, m': seq<int>, ns: set<int>, w: Tree, lo: int, hi: int)
    requires TreeOK(m, ns, w) && Outside(ns, lo, hi) && lo >= FIRST
    requires |m| <= |m'| && forall x :: 0 <= x < |m| && m[x] != m'[x] ==> lo < x <= hi
    ensures TreeOK(m', ns, w)
  {
    hide RB, Sorted, InOrder;
    forall a | a in ns ensures SameNode(m, m', a) {
    }
    RepFrame(m, m', ns, Top, w);
  }

  // ---------- the tree and the list of blocks ----------

  lemma ListedRemoved(bs: seq<Block>, xs: seq<Item>, out: set<int>, ys: seq<Item>, k: nat, i: Item, from: int, to: int)
    requires Tiles(bs, from, to) && Listed(bs, xs, out) && Sorted(xs) && InsertedAt(ys, k, i, xs)
    ensures Listed(bs, ys, out + {i.addr}) && i.addr !in out && Block(i.addr, i.size, true) in bs && i.size >= LEAST
  {
    assert xs[k] == i && i in xs;
    forall x ensures x in ys <==> x in xs && x.addr != i.addr {
      InsertedMembers(ys, k, i, xs, x);
      if x in xs && x.addr == i.addr {
        BlocksApart(bs, Block(x.addr, x.size, true), Block(i.addr, i.size, true), from, to);
      }
      if x in ys {
        NotTwice(ys, k, i, xs, x);
      }
    }
  }

  lemma InsertedMembers(xs: seq<Item>, k: nat, i: Item, ys: seq<Item>, x: Item)
    requires InsertedAt(xs, k, i, ys)
    ensures x in ys <==> x in xs || x == i
  {
    if x in xs {
      var j :| 0 <= j < |xs| && xs[j] == x;
      assert ys[if j < k then j else j + 1] == x;
    }
  }

  lemma NotTwice(xs: seq<Item>, k: nat, i: Item, ys: seq<Item>, x: Item)
    requires InsertedAt(xs, k, i, ys) && Sorted(ys) && x in xs
    ensures x != i
  {
    var j :| 0 <= j < |xs| && xs[j] == x;
    var j' := if j < k then j else j + 1;
    assert ys[j'] == x && ys[k] == i && j' != k;
    assert Less(ys[if j' < k then j' else k], ys[if j' < k then k else j']);
  }

  // ---------- IS_IN_RB guards ----------

  lemma InvParts(m: seq<int>, bs: seq<Block>, ns: set<int>, w: Tree, out: set<int>, b: Block)
    requires HeapInv(m, bs, ns, w, out) && b in bs
    ensures Tagged(m, b) && Tiles(bs, FIRST, End(m)) && FIRST + 4 <= |m|
    ensures FIRST <= b.addr && b.addr + b.size <= End(m) && b.size % 8 == 0
    ensures Rep(m, ns, Top, w) && RB(w) && Sorted(InOrder(w)) && Apart(ns) && Owned(ns, bs) && Layout(m, bs)
    ensures b.free && b.addr !in out ==> (b.addr in ns <==> b.size >= LEAST)
  {
    BlocksApart(bs, b, b, FIRST, End(m));
    NodesOwned(m, bs, ns, w, out);
    InOrderAddrs(w);
    if b.free && b.addr !in out {
      if b.size >= LEAST {
        assert Item(b.size, b.addr) in InOrder(w);
      }
      if b.addr in ns {
        var s :| s >= LEAST && Block(b.addr, s, true) in bs;
        BlocksApart(bs, b, Block(b.addr, s, true), FIRST, End(m));
      }
    }
  }

  lemma TagBits(b: Block)
    requires b.size % 8 == 0
    ensures Masked(TagWord(b)) == b.size
    ensures TagWord(b) % 2 == (if b.free then 1 else 0)
  {
    var q := b.size / 8;
    Eights(q);
    assert b.size == 8 * q;
  }

  // ---------- putting the invariant back together ----------

  /** The large free blocks of `mid` join the list; those of the replaced blocks had left it. */
  ghost predicate Relisted(xs: seq<Item>, ys: seq<Item>, mid: seq<Block>) {
    forall x :: x in ys <==> x in xs || (Block(x.addr, x.size, true) in mid && x.size >= LEAST)
  }

  lemma ListedSplice(bs: seq<Block>, lo: nat, hi: nat, mid: seq<Block>, xs: seq<Item>, ys: seq<Item>, out: set<int>, from: int, to: int)
    requires Tiles(bs, from, to) && lo <= hi <= |bs| && Listed(bs, xs, out) && Relisted(xs, ys, mid)
    requires forall a :: a in out ==> exists j :: lo <= j < hi && bs[j].addr == a
    requires forall j :: lo <= j < hi && bs[j].free && bs[j].size >= LEAST ==> bs[j].addr in out
    ensures Listed(Splice(bs, lo, hi, mid), ys, {})
  {
    forall x ensures x in xs <==> Block(x.addr, x.size, true) in bs[..lo] + bs[hi..] && x.size >= LEAST {
      var b := Block(x.addr, x.size, true);
      if x in xs {
        var j :| 0 <= j < |bs| && bs[j] == b;
        assert j < lo ==> bs[..lo][j] == b;
        assert hi <= j ==> bs[hi..][j - hi] == b;
      }
      if b in bs[..lo] + bs[hi..] {
        NotReplaced(bs, lo, hi, b, from, to);
      }
    }
    forall x ensures x in ys <==> Block(x.addr, x.size, true) in Splice(bs, lo, hi, mid) && x.size >= LEAST {
      SpliceMembers(bs, lo, hi, mid, Block(x.addr, x.size, true));
    }
  }

  lemma NotReplaced(bs: seq<Block>, lo: nat, hi: nat, b: Block, from: int, to: int)
    requires Tiles(bs, from, to) && lo <= hi <= |bs| && b in bs[..lo] + bs[hi..]
    ensures b in bs && forall j :: lo <= j < hi ==> bs[j].addr != b.addr
  {
    var i :| 0 <= i < |bs| && bs[i] == b && (i < lo || hi <= i);
    TileAt(bs, i, from, to);
    forall j | lo <= j < hi ensures bs[j].addr != b.addr {
      TileAt(bs, j, from, to);
      if i < j {
        TilesOrder(bs, i, j, from, to);
      } else {
        TilesOrder(bs, j, i, from, to);
      }
    }
  }

  /** Outside the blocks `lo..hi` everything is as before. */
  ghost predicate OthersSame(m: seq<int>, m': seq<int>, bs: seq<Block>, lo: nat, hi: nat)
    requires lo <= hi <= |bs|
  {
    forall b :: b in bs[..lo] || b in bs[hi..] ==> SameBlock(m, m', b)
  }

  /** Blocks `lo..hi` became `mid`, in memory, in the tree and in the list of blocks. */
  lemma InvSplice(m: seq<int>, m': seq<int>, bs: seq<Block>, ns: set<int>, w: Tree, lo: nat, hi: nat, mid: seq<Block>,
      ns': set<int>, xs: seq<Item>, w': Tree, out: set<int>)
    requires HeapInv(m, bs, ns, w, {}) && lo <= hi <= |bs|
    requires Confined(m, m', ns, Start(bs, lo, End(m)), Start(bs, hi, End(m)))
    requires WellFormed(Splice(bs, lo, hi, mid), FIRST, End(m'), LEAST)
    requires forall b :: b in mid ==> Tagged(m', b)
    requires TreeOK(m', ns', w') && Listed(bs, xs, out) && Relisted(xs, InOrder(w'), mid)
    requires forall a :: a in out ==> exists j :: lo <= j < hi && bs[j].addr == a
    requires forall j :: lo <= j < hi && bs[j].free && bs[j].size >= LEAST ==> bs[j].addr in out
    ensures HeapInv(m', Splice(bs, lo, hi, mid), ns', w', {})
    ensures OthersSame(m, m', bs, lo, hi)
  {
    hide Tiles, RB, Sorted, InOrder, WellFormed, Tagged, Confined, SameBlock, Owned, Listed, Relisted;
    NodesOwned(m, bs, ns, w, {});
    LayoutSplice(m, m', bs, ns, lo, hi, mid);
    LayoutTiles(m, bs);
    ListedSplice(bs, lo, hi, mid, xs, InOrder(w'), out, FIRST, End(m));
  }

  lemma LayoutTiles(m: seq<int>, bs: seq<Block>)
    requires Layout(m, bs)
    ensures Tiles(bs, FIRST, End(m))
  {
  }
}
