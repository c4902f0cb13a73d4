/** Boundary tags and the circular free list together: the heap of `mm_explicit_ref.c`. */
module RingHeap {
  import opened Common
  import opened Memlib
  import opened Blocks
  import opened Fits
  import opened Tags
  import opened RingList

  /** The ring holds exactly the free blocks, except those in `out`. */
  ghost predicate Members(bs: seq<Block>, xs: seq<Block>, out: set<Block>) {
    forall b :: b in xs <==> b in bs && b.free && b !in out
  }

  ghost predicate RingInv(m: seq<int>, bs: seq<Block>, xs: seq<Block>, out: set<Block>) {
    Layout(Ring, m, bs) && Circle(m, xs) && Members(bs, xs, out)
  }

  lemma InvParts(m: seq<int>, bs: seq<Block>, xs: seq<Block>, out: set<Block>)
    requires RingInv(m, bs, xs, out)
    ensures Layout(Ring, m, bs) && Tiles(bs, 24, |m|) && 24 <= |m|
    ensures Circle(m, xs) && Members(bs, xs, out)
  {
  }

  // ---------- the order of the ring ----------

  /** The ring without the blocks of `gone`, in the same order. */
  function Rest(xs: seq<Block>, gone: set<Block>): seq<Block> {
    if xs == [] then [] else (if xs[0] in gone then [] else [xs[0]]) + Rest(xs[1..], gone)
  }

  lemma {:induction false} RestNone(xs: seq<Block>)
    ensures Rest(xs, {}) == xs
  {
    if xs != [] {
      RestNone(xs[1..]);
    }
  }

  lemma {:induction false} RestTwice(xs: seq<Block>, a: set<Block>, b: set<Block>)
    ensures Rest(Rest(xs, a), b) == Rest(xs, a + b)
  {
    if xs != [] {
      RestTwice(xs[1..], a, b);
      if xs[0] in a {
        assert Rest(xs, a) == Rest(xs[1..], a) && Rest(xs, a + b) == Rest(xs[1..], a + b);
      } else {
        assert Rest(xs, a)[1..] == Rest(xs[1..], a);
      }
    }
  }

  lemma {:induction false} RestSame(xs: seq<Block>, gone: set<Block>)
    requires forall x :: x in xs ==> x !in gone
    ensures Rest(xs, gone) == xs
  {
    if xs != [] {
      RestSame(xs[1..], gone);
    }
  }

  /** A block that occurs once. */
  lemma {:induction false} RestOne(xs: seq<Block>, k: nat)
    requires k < |xs| && forall j :: 0 <= j < |xs| && j != k ==> xs[j] != xs[k]
    ensures Rest(xs, {xs[k]}) == Without(xs, k)
  {
    if k == 0 {
      RestSame(xs[1..], {xs[0]});
    } else {
      assert xs[1..][k - 1] == xs[k];
      RestOne(xs[1..], k - 1);
      assert Without(xs, k) == [xs[0]] + Without(xs[1..], k - 1);
    }
  }

  /** The free neighbours of block `k`. */
  function Sides(bs: seq<Block>, k: nat): set<Block>
    requires k < |bs|
  {
    (if k > 0 && bs[k - 1].free then {bs[k - 1]} else {}) + (if k + 1 < |bs| && bs[k + 1].free then {bs[k + 1]} else {})
  }

  /** The ring after block `k` was freed: the merged block comes first, its parts have gone. */
  function RingAfter(xs: seq<Block>, bs: seq<Block>, k: nat): seq<Block>
    requires k < |bs|
  {
    [Merged(bs, k)] + Rest(xs, Sides(bs, k))
  }

  /** The ring after `need` bytes were taken from `b`: a rest comes first. */
  function RingTaken(xs: seq<Block>, b: Block, need: int): seq<Block> {
    (if b.size < need + 16 then [] else [Block(b.addr + need, b.size - need, true)]) + Rest(xs, {b})
  }

  /** Whether the block is already marked as free does not matter. */
  lemma RingAfterFreed(xs: seq<Block>, bs: seq<Block>, k: nat)
    requires k < |bs|
    ensures var cs := Splice(bs, k, k + 1, [Block(bs[k].addr, bs[k].size, true)]);
      k < |cs| && RingAfter(xs, cs, k) == RingAfter(xs, bs, k)
  {
    var cs := Splice(bs, k, k + 1, [Block(bs[k].addr, bs[k].size, true)]);
    assert |cs| == |bs| && forall i :: 0 <= i < |bs| && i != k ==> cs[i] == bs[i];
    assert cs[k] == Block(bs[k].addr, bs[k].size, true);
  }

  // ---------- frames ----------

  lemma CircleFrame(m: seq<int>, m': seq<int>, xs: seq<Block>)
    requires Circle(m, xs) && |m| <= |m'| && m'[8] == m[8] && m'[12] == m[12]
    requires forall b :: b in xs ==> SameLinks(m, m', b)
    ensures Circle(m', xs)
  {
    forall i | 0 <= i <= |xs| ensures Tied(m', xs, i) {
      assert Tied(m, xs, i);
      assert 0 < i ==> xs[i - 1] in xs && SameLinks(m, m', xs[i - 1]);
      assert i < |xs| ==> xs[i] in xs && SameLinks(m, m', xs[i]);
    }
  }

  lemma SpliceRing(bs: seq<Block>, xs: seq<Block>, lo: nat, hi: nat, mid: seq<Block>, from: int, to: int)
    requires Tiles(bs, from, to) && lo <= hi <= |bs| && Members(bs, xs, Freed(bs[lo..hi]))
    requires Tiles(mid, Start(bs, lo, to), Start(bs, hi, to))
    ensures Members(Splice(bs, lo, hi, mid), xs, Freed(mid))
  {
    hide Tiles;
    InnerTiles(bs, lo, hi, from, to);
    var cs := Splice(bs, lo, hi, mid);
    forall b ensures b in xs <==> b in cs && b.free && b !in Freed(mid) {
      SpliceMembers(bs, lo, hi, mid, b);
      if b in bs {
        OuterOrInner(bs, lo, hi, b);
      }
      if Outer(bs, lo, hi, b) {
        OuterWhere(bs, lo, hi, b, from, to);
        NotInner(bs[lo..hi], Start(bs, lo, to), Start(bs, hi, to), b);
        NotInner(mid, Start(bs, lo, to), Start(bs, hi, to), b);
      }
    }
  }

  /** Blocks `lo..hi`, with no free one of them in the ring, become `mid`. */
  lemma SpliceInv(m: seq<int>, m': seq<int>, bs: seq<Block>, xs: seq<Block>, lo: nat, hi: nat, mid: seq<Block>, gone: set<Block>)
    requires lo <= hi <= |bs| && RingInv(m, bs, xs, Freed(bs[lo..hi]))
    requires Tiles(mid, Start(bs, lo, |m|), Start(bs, hi, |m|))
    requires OnlyRegion(m, m', Start(bs, lo, |m|), Start(bs, hi, |m|))
    requires forall b :: b in mid ==> Tagged(Ring, m', b)
    requires forall b :: b in bs[lo..hi] && !b.free ==> b in gone
    ensures RingInv(m', Splice(bs, lo, hi, mid), xs, Freed(mid))
    ensures Preserved(m, m', bs, Splice(bs, lo, hi, mid), gone)
  {
    hide Tiles, Tagged, Preserved, SameLinks, Circle;
    SpliceLayout(Ring, m, m', bs, lo, hi, mid);
    SpliceRing(bs, xs, lo, hi, mid, 24, |m|);
    SplicePreserved(Ring, m, m', bs, lo, hi, mid, gone);
    InnerTiles(bs, lo, hi, 24, |m|);
    forall b | b in xs ensures SameLinks(m, m', b) {
      OuterOrInner(bs, lo, hi, b);
      OuterWhere(bs, lo, hi, b, 24, |m|);
      RegionSpares(Ring, m, m', Start(bs, lo, |m|), Start(bs, hi, |m|), b);
    }
    CircleFrame(m, m', xs);
  }

  /** Blocks `lo..hi` become the one block `b`. */
  lemma Retagged(m: seq<int>, bs: seq<Block>, xs: seq<Block>, lo: nat, hi: nat, b: Block, gone: set<Block>)
    requires lo <= hi <= |bs| && RingInv(m, bs, xs, Freed(bs[lo..hi]))
    requires Tiles([b], Start(bs, lo, |m|), Start(bs, hi, |m|)) && b.size >= LEAST
    requires forall x :: x in bs[lo..hi] && !x.free ==> x in gone
    ensures 24 <= b.addr && b.addr + b.size <= |m| && b.size % 8 == 0
    ensures var m' := m[b.addr - 4 := TagWord(Ring, b)][b.addr + b.size - 8 := TagWord(Ring, b)];
      && RingInv(m', Splice(bs, lo, hi, [b]), xs, if b.free then {b} else {})
      && Preserved(m, m', bs, Splice(bs, lo, hi, [b]), gone)
  {
    OneInside(Ring, m, bs, lo, hi, b);
    var m' := m[b.addr - 4 := TagWord(Ring, b)][b.addr + b.size - 8 := TagWord(Ring, b)];
    assert Freed([b]) == if b.free then {b} else {};
    SpliceInv(m, m', bs, xs, lo, hi, [b], gone);
  }

  /** A new free block and a new epilogue at the end of the heap. */
  lemma Grown(m: seq<int>, m': seq<int>, bs: seq<Block>, xs: seq<Block>, n: int)
    requires RingInv(m, bs, xs, {}) && n >= LEAST && n % 8 == 0 && |m'| == |m| + n
    requires m'[..|m| - 4] == m[..|m| - 4] && m'[|m| + n - 4] == 1
    requires var b := Block(|m|, n, true); m'[|m| - 4] == TagWord(Ring, b) && m'[|m| + n - 8] == TagWord(Ring, b)
    ensures var b := Block(|m|, n, true);
      RingInv(m', bs + [b], xs, {b}) && Preserved(m, m', bs, bs + [b], {})
  {
    hide Circle, Tiles, TagWord, SameLinks;
    GrownLayout(Ring, m, m', bs, n);
    var b := Block(|m|, n, true);
    forall x | x in bs ensures x != b {
      assert Tagged(Ring, m, x);
    }
    assert m'[..|m| - 4][8] == m[..|m| - 4][8] && m'[..|m| - 4][12] == m[..|m| - 4][12];
    CircleFrame(m, m', xs);
  }

  // ---------- list_add, list_remove ----------

  lemma WhereFree(m: seq<int>, bs: seq<Block>, xs: seq<Block>, out: set<Block>, b: Block)
    requires RingInv(m, bs, xs, out) && b in bs
    ensures 24 <= b.addr && b.addr + 8 <= |m| && Boundary(b.addr)
    ensures b in out ==> forall i :: 0 <= i < |xs| ==> Away(xs[i], b)
  {
    assert Tagged(Ring, m, b);
    if b in out {
      forall i | 0 <= i < |xs| ensures Away(xs[i], b) {
        assert xs[i] in xs && Tagged(Ring, m, xs[i]);
        BlocksApart(bs, xs[i], b, 24, |m|);
      }
    }
  }

  lemma RingWords(m: seq<int>, xs: seq<Block>)
    requires Circle(m, xs)
    ensures 24 <= |m| && m[12] == Node(xs, 1) && 8 <= Node(xs, 1) && Node(xs, 1) + 8 <= |m|
    ensures Boundary(SENTINEL) && Boundary(Node(xs, 1))
  {
    NodesApart(m, xs, 1, 1);
    assert Tied(m, xs, 0);
  }

  lemma AddedInv(m: seq<int>, bs: seq<Block>, xs: seq<Block>, out: set<Block>, b: Block)
    requires RingInv(m, bs, xs, out) && b in bs && b.free && b in out
    ensures 24 <= |m| && 24 <= b.addr && b.addr + 8 <= |m| && Boundary(b.addr) && 0 <= Node(xs, 1) < |m|
    ensures RingInv(Added(m, xs, b), bs, [b] + xs, out - {b})
    ensures OnlyLinks(Ring, m, Added(m, xs, b), bs)
  {
    WhereFree(m, bs, xs, out, b);
    RingWords(m, xs);
    AddedCircle(m, xs, b);
    AddedLinks(m, bs, xs, out, b);
    LayoutLinks(Ring, m, Added(m, xs, b), bs);
  }

  lemma AddedLinks(m: seq<int>, bs: seq<Block>, xs: seq<Block>, out: set<Block>, b: Block)
    requires Members(bs, xs, out) && b in bs && b.free
    requires 24 <= |m| && 0 <= b.addr && b.addr + 8 <= |m| && 0 <= Node(xs, 1) < |m|
    ensures OnlyLinks(Ring, m, Added(m, xs, b), bs)
  {
    assert xs != [] ==> xs[0] in xs;
  }

  /** Where a listed block is. */
  lemma RingPosition(m: seq<int>, bs: seq<Block>, xs: seq<Block>, out: set<Block>, b: Block) returns (k: nat)
    requires RingInv(m, bs, xs, out) && b in bs && b.free && b !in out
    ensures k < |xs| && xs[k] == b && Inside(m, xs) && Rest(xs, {b}) == Without(xs, k)
    ensures m[b.addr] == Node(xs, k) && m[b.addr + 4] == Node(xs, k + 2)
    ensures 8 <= Node(xs, k) && Node(xs, k) + 8 <= |m| && 8 <= Node(xs, k + 2) && Node(xs, k + 2) + 8 <= |m|
    ensures Boundary(b.addr) && Boundary(Node(xs, k)) && Boundary(Node(xs, k + 2))
    ensures Clear(Node(xs, k), b.addr) && Clear(Node(xs, k + 2), b.addr) && Node(xs, k) != b.addr && Node(xs, k + 2) != b.addr
  {
    k :| 0 <= k < |xs| && xs[k] == b;
    assert Tied(m, xs, k) && Tied(m, xs, k + 1);
    NodesApart(m, xs, k, k + 1);
    NodesApart(m, xs, k + 2, k + 1);
    forall j | 0 <= j < |xs| && j != k ensures xs[j] != xs[k] {
      SpreadAt(xs, j, k);
    }
    RestOne(xs, k);
  }

  lemma RemovedInv(m: seq<int>, bs: seq<Block>, xs: seq<Block>, out: set<Block>, b: Block, k: nat)
    requires RingInv(m, bs, xs, out) && k < |xs| && xs[k] == b && Inside(m, xs)
    ensures RingInv(Removed(m, xs, k), bs, Without(xs, k), out + {b})
    ensures OnlyLinks(Ring, m, Removed(m, xs, k), bs)
  {
    hide Circle, Tagged, Tiles, Layout;
    RemovedCircle(m, xs, k);
    RemovedLinks(m, bs, xs, out, k);
    LayoutLinks(Ring, m, Removed(m, xs, k), bs);
    InvParts(m, bs, xs, out);
    RemovedMembers(m, xs, k);
    assert b in xs;
  }

  lemma RemovedLinks(m: seq<int>, bs: seq<Block>, xs: seq<Block>, out: set<Block>, k: nat)
    requires Members(bs, xs, out) && k < |xs| && Inside(m, xs)
    ensures OnlyLinks(Ring, m, Removed(m, xs, k), bs)
  {
    assert k > 0 ==> xs[k - 1] in xs;
    assert k + 1 < |xs| ==> xs[k + 1] in xs;
  }

  lemma RemovedMembers(m: seq<int>, xs: seq<Block>, k: nat)
    requires Circle(m, xs) && k < |xs|
    ensures forall x :: x in Without(xs, k) <==> x in xs && x != xs[k]
  {
    hide Circle;
    var ys := Without(xs, k);
    forall x ensures x in ys <==> x in xs && x != xs[k] {
      if x in ys {
        LeftOver(m, xs, k, x);
      }
      if x in xs && x != xs[k] {
        var j :| 0 <= j < |xs| && xs[j] == x;
        assert ys[if j < k then j else j - 1] == x;
      }
    }
  }

  lemma LeftOver(m: seq<int>, xs: seq<Block>, k: nat, x: Block)
    requires Circle(m, xs) && k < |xs| && x in Without(xs, k)
    ensures x in xs && x != xs[k]
  {
    hide Tied;
    var ys := Without(xs, k);
    var j :| 0 <= j < |ys| && ys[j] == x;
    assert x == xs[if j < k then j else j + 1];
    SpreadAt(xs, if j < k then j else j + 1, k);
  }
}
