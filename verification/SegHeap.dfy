/** Boundary tags and segregated lists together: the heaps of `mm.c` and `mm_seg_ref_97.c`. */
module SegHeap {
  import opened Blocks
  import opened Fits
  import opened Tags
  import opened SegLists

  /** List `c` holds exactly the free blocks of class `c`, except those in `out`. */
  ghost predicate Listed(d: Design, bs: seq<Block>, ls: seq<seq<Block>>, out: set<Block>) {
    && |ls| == Lists(d)
    && (forall b :: b in bs && b.free && b !in out ==> b.size >= 0 && Class(d, b.size) < Lists(d) && b in ls[Class(d, b.size)])
    && (forall c, b {:trigger b in ls[c]} :: 0 <= c < Lists(d) && b in ls[c] ==>
         b in bs && b.free && b !in out && b.size >= 0 && Class(d, b.size) == c)
  }

  ghost predicate Chains(d: Design, m: seq<int>, ls: seq<seq<Block>>) {
    |ls| == Lists(d) && forall c {:trigger ls[c]} :: 0 <= c < Lists(d) ==> Chain(d, m, 4 * c, ls[c])
  }

  ghost predicate SegInv(d: Design, m: seq<int>, bs: seq<Block>, ls: seq<seq<Block>>, out: set<Block>) {
    !d.Ring? && Layout(d, m, bs) && Chains(d, m, ls) && Listed(d, bs, ls, out)
  }

  lemma InvLayout(d: Design, m: seq<int>, bs: seq<Block>, ls: seq<seq<Block>>, out: set<Block>)
    requires SegInv(d, m, bs, ls, out)
    ensures Layout(d, m, bs) && Tiles(bs, Base(d), End(d, m))
  {
  }

  // ---------- frames ----------

  lemma ChainFrame(d: Design, m: seq<int>, m': seq<int>, cell: int, xs: seq<Block>)
    requires Chain(d, m, cell, xs) && |m| <= |m'| && (0 <= cell < |m| ==> m'[cell] == m[cell])
    requires forall b :: b in xs ==> SameLinks(m, m', b)
    ensures Chain(d, m', cell, xs)
  {
    forall i | 0 <= i < |xs| ensures Linked(d, m', xs, i) {
      assert Linked(d, m, xs, i) && xs[i] in xs && SameLinks(m, m', xs[i]);
    }
  }

  /** Changing one list leaves the others alone. */
  lemma OtherChains(d: Design, m: seq<int>, m': seq<int>, bs: seq<Block>, ls: seq<seq<Block>>, out: set<Block>, c: nat, xs: seq<Block>)
    requires SegInv(d, m, bs, ls, out) && c < Lists(d) && OnlyChain(m, m', 4 * c, xs)
    requires forall b :: b in xs ==> b in bs && b.free && b.size >= 0 && Class(d, b.size) == c
    ensures forall e :: 0 <= e < Lists(d) && e != c ==> Chain(d, m', 4 * e, ls[e])
    ensures OnlyLinks(d, m, m', bs)
  {
    forall e | 0 <= e < Lists(d) && e != c ensures Chain(d, m', 4 * e, ls[e]) {
      assert Chain(d, m, 4 * e, ls[e]);
      forall b | b in ls[e] ensures SameLinks(m, m', b) {
        OtherLinks(d, m, m', bs, c, xs, b);
      }
      HeadSame(d, m, m', bs, c, e, xs);
      ChainFrame(d, m, m', 4 * e, ls[e]);
    }
    forall x | 0 <= x < |m| && m[x] != m'[x] ensures LinkWord(d, bs, x) {
      assert ChainWord(4 * c, xs, x);
    }
  }

  lemma OtherLinks(d: Design, m: seq<int>, m': seq<int>, bs: seq<Block>, c: nat, xs: seq<Block>, b: Block)
    requires Layout(d, m, bs) && !d.Ring? && c < Lists(d) && OnlyChain(m, m', 4 * c, xs)
    requires forall x :: x in xs ==> x in bs
    requires b in bs && b !in xs
    ensures SameLinks(m, m', b)
  {
    assert Tagged(d, m, b);
    BlocksApart(bs, b, b, Base(d), End(d, m));
    forall x | b.addr - 4 <= x <= b.addr + 4 ensures !ChainWord(4 * c, xs, x) {
      forall y | y in xs ensures x != y.addr && x != y.addr + 4 {
        assert Tagged(d, m, y);
        BlocksApart(bs, b, y, Base(d), End(d, m));
      }
    }
  }

  lemma HeadSame(d: Design, m: seq<int>, m': seq<int>, bs: seq<Block>, c: nat, e: nat, xs: seq<Block>)
    requires Layout(d, m, bs) && !d.Ring? && c < Lists(d) && e < Lists(d) && c != e && OnlyChain(m, m', 4 * c, xs)
    requires forall x :: x in xs ==> x in bs
    ensures m'[4 * e] == m[4 * e]
  {
    forall y | y in xs ensures 4 * e != y.addr && 4 * e != y.addr + 4 {
      assert Tagged(d, m, y);
    }
  }

  // ---------- replacing a stretch ----------

  lemma SpliceListed(d: Design, bs: seq<Block>, ls: seq<seq<Block>>, lo: nat, hi: nat, mid: seq<Block>, from: int, to: int)
    requires Tiles(bs, from, to) && lo <= hi <= |bs| && Listed(d, bs, ls, Freed(bs[lo..hi]))
    requires Tiles(mid, Start(bs, lo, to), Start(bs, hi, to))
    ensures Listed(d, Splice(bs, lo, hi, mid), ls, Freed(mid))
  {
    hide Tiles, Class;
    InnerTiles(bs, lo, hi, from, to);
    var cs := Splice(bs, lo, hi, mid);
    forall b | b in cs && b.free && b !in Freed(mid)
      ensures b.size >= 0 && Class(d, b.size) < Lists(d) && b in ls[Class(d, b.size)]
    {
      SpliceMembers(bs, lo, hi, mid, b);
      OuterWhere(bs, lo, hi, b, from, to);
      NotInner(bs[lo..hi], Start(bs, lo, to), Start(bs, hi, to), b);
    }
    forall c, b | 0 <= c < Lists(d) && b in ls[c]
      ensures b in cs && b.free && b !in Freed(mid) && b.size >= 0 && Class(d, b.size) == c
    {
      OuterOrInner(bs, lo, hi, b);
      OuterWhere(bs, lo, hi, b, from, to);
      NotInner(mid, Start(bs, lo, to), Start(bs, hi, to), b);
      SpliceMembers(bs, lo, hi, mid, b);
    }
  }

  lemma SpliceChains(d: Design, m: seq<int>, m': seq<int>, bs: seq<Block>, ls: seq<seq<Block>>, lo: nat, hi: nat)
    requires lo <= hi <= |bs| && SegInv(d, m, bs, ls, Freed(bs[lo..hi]))
    requires OnlyRegion(m, m', Start(bs, lo, End(d, m)), Start(bs, hi, End(d, m)))
    ensures Chains(d, m', ls)
  {
    hide Tiles, Class, Chain, Tagged, SameLinks;
    InnerTiles(bs, lo, hi, Base(d), End(d, m));
    forall c | 0 <= c < Lists(d) ensures Chain(d, m', 4 * c, ls[c]) {
      assert Chain(d, m, 4 * c, ls[c]);
      forall b | b in ls[c] ensures SameLinks(m, m', b) {
        OuterOrInner(bs, lo, hi, b);
        OuterWhere(bs, lo, hi, b, Base(d), End(d, m));
        RegionSpares(d, m, m', Start(bs, lo, End(d, m)), Start(bs, hi, End(d, m)), b);
      }
      ChainFrame(d, m, m', 4 * c, ls[c]);
    }
  }

  /** Blocks `lo..hi`, with no free one of them in a list, become `mid`. */
  lemma SpliceInv(d: Design, m: seq<int>, m': seq<int>, bs: seq<Block>, ls: seq<seq<Block>>, lo: nat, hi: nat,
      mid: seq<Block>, gone: set<Block>)
    requires lo <= hi <= |bs| && SegInv(d, m, bs, ls, Freed(bs[lo..hi]))
    requires Tiles(mid, Start(bs, lo, End(d, m)), Start(bs, hi, End(d, m)))
    requires OnlyRegion(m, m', Start(bs, lo, End(d, m)), Start(bs, hi, End(d, m)))
    requires forall b :: b in mid ==> Tagged(d, m', b)
    requires forall b :: b in bs[lo..hi] && !b.free ==> b in gone
    ensures SegInv(d, m', Splice(bs, lo, hi, mid), ls, Freed(mid))
    ensures Preserved(m, m', bs, Splice(bs, lo, hi, mid), gone)
  {
    hide Tiles, Tagged, OnlyRegion, Preserved, Listed, Chains;
    SpliceLayout(d, m, m', bs, lo, hi, mid);
    SpliceListed(d, bs, ls, lo, hi, mid, Base(d), End(d, m));
    SpliceChains(d, m, m', bs, ls, lo, hi);
    SplicePreserved(d, m, m', bs, lo, hi, mid, gone);
  }

  /** Blocks `lo..hi` become the one block `b`. */
  lemma Retagged(d: Design, m: seq<int>, bs: seq<Block>, ls: seq<seq<Block>>, lo: nat, hi: nat, b: Block, gone: set<Block>)
    requires lo <= hi <= |bs| && SegInv(d, m, bs, ls, Freed(bs[lo..hi]))
    requires Tiles([b], Start(bs, lo, End(d, m)), Start(bs, hi, End(d, m))) && b.size >= LEAST
    requires forall x :: x in bs[lo..hi] && !x.free ==> x in gone
    ensures Base(d) <= b.addr && b.addr + b.size <= |m| && b.size % 8 == 0
    ensures var m' := m[b.addr - 4 := TagWord(d, b)][b.addr + b.size - 8 := TagWord(d, b)];
      && SegInv(d, m', Splice(bs, lo, hi, [b]), ls, if b.free then {b} else {})
      && Preserved(m, m', bs, Splice(bs, lo, hi, [b]), gone)
  {
    OneInside(d, m, bs, lo, hi, b);
    var m' := m[b.addr - 4 := TagWord(d, b)][b.addr + b.size - 8 := TagWord(d, b)];
    assert Freed([b]) == if b.free then {b} else {};
    SpliceInv(d, m, m', bs, ls, lo, hi, [b], gone);
  }

  /** A new free block and a new epilogue at the end of the heap. */
  lemma Grown(d: Design, m: seq<int>, m': seq<int>, bs: seq<Block>, ls: seq<seq<Block>>, n: int)
    requires SegInv(d, m, bs, ls, {}) && n >= LEAST && n % 8 == 0 && |m'| == |m| + n
    requires var e := End(d, m);
      && m'[..e - 4] == m[..e - 4] && m'[e + n - 4] == 1
      && var b := Block(e, n, true); m'[e - 4] == TagWord(d, b) && m'[e + n - 8] == TagWord(d, b)
    ensures var b := Block(End(d, m), n, true);
      SegInv(d, m', bs + [b], ls, {b}) && Preserved(m, m', bs, bs + [b], {})
  {
    hide Class, Chain, Listed, Tiles, Tagged, TagWord, SameLinks;
    GrownLayout(d, m, m', bs, n);
    GrownListed(d, m, bs, ls, Block(End(d, m), n, true));
    forall c | 0 <= c < Lists(d) ensures Chain(d, m', 4 * c, ls[c]) {
      assert Chain(d, m, 4 * c, ls[c]);
      ListedAll(d, bs, ls, c);
      HeadKept(d, m, m', c, n);
      ChainFrame(d, m, m', 4 * c, ls[c]);
    }
  }

  lemma HeadKept(d: Design, m: seq<int>, m': seq<int>, c: nat, n: int)
    requires !d.Ring? && c < Lists(d) && Base(d) <= End(d, m) <= |m| <= |m'| && m'[..End(d, m) - 4] == m[..End(d, m) - 4]
    ensures m'[4 * c] == m[4 * c]
  {
    assert m'[4 * c] == m'[..End(d, m) - 4][4 * c];
  }

  lemma ListedAll(d: Design, bs: seq<Block>, ls: seq<seq<Block>>, c: nat)
    requires Listed(d, bs, ls, {}) && c < Lists(d)
    ensures forall x :: x in ls[c] ==> x in bs
  {
  }

  lemma GrownListed(d: Design, m: seq<int>, bs: seq<Block>, ls: seq<seq<Block>>, b: Block)
    requires Layout(d, m, bs) && Listed(d, bs, ls, {}) && b.addr == End(d, m)
    ensures Listed(d, bs + [b], ls, {b})
  {
    hide Class, Tiles;
    forall x | x in bs ensures x != b {
      assert Tagged(d, m, x);
    }
  }

  /** The payload of an allocated block matters to nobody but its owner. */
  lemma PayloadInv(d: Design, m: seq<int>, m': seq<int>, bs: seq<Block>, ls: seq<seq<Block>>, b: Block)
    requires SegInv(d, m, bs, ls, {}) && b in bs && !b.free && OnlyPayload(m, m', b)
    ensures SegInv(d, m', bs, ls, {}) && Preserved(m, m', bs, bs, {b})
  {
    hide Class, Chain, Tiles, SameLinks, TagWord;
    assert Tagged(d, m, b);
    PayloadLayout(d, m, m', bs, b);
    forall c | 0 <= c < Lists(d) ensures Chain(d, m', 4 * c, ls[c]) {
      assert Chain(d, m, 4 * c, ls[c]);
      forall x | x in ls[c] ensures SameLinks(m, m', x) {
        assert x in bs && x.free;
      }
      ChainFrame(d, m, m', 4 * c, ls[c]);
    }
  }

  /** The payload of a block lies inside the heap. */
  lemma PayloadInside(d: Design, m: seq<int>, bs: seq<Block>, ls: seq<seq<Block>>, b: Block)
    requires SegInv(d, m, bs, ls, {}) && b in bs
    ensures Base(d) <= b.addr && b.addr + b.size <= End(d, m) <= |m|
  {
    assert Tagged(d, m, b);
  }
}
