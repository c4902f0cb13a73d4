/** Free blocks leave and join lists: what that does to the heap's invariant. */
module SegMoves {
  import opened Common
  import opened Memlib
  import opened Blocks
  import opened Fits
  import opened Tags
  import opened SegLists
  import opened SegHeap

  /** From `ls` to `ls'` the block `b` left the list of its class, and nothing else changed. */
  ghost predicate LeavesList(d: Design, ls: seq<seq<Block>>, ls': seq<seq<Block>>, b: Block)
    requires b.size >= 0
  {
    var c := Class(d, b.size);
    c < |ls| && exists k: nat :: k < |ls[c]| && ls[c][k] == b && ls' == ls[c := Without(ls[c], k)]
  }

  /** `mm.c` puts a block behind the smaller ones, and behind the head also if that has the same size;
      `mm_seg_ref_97.c` puts it behind the larger ones. */
  ghost predicate Spot(d: Design, xs: seq<Block>, size: int, k: nat) {
    if d.Floor? then
      k <= |xs| && (forall i :: 0 <= i < k ==> xs[i].size > size) && (k < |xs| ==> xs[k].size <= size)
    else if xs == [] || size < xs[0].size then
      k == 0
    else
      0 < k <= |xs| && (forall i :: 0 < i < k ==> xs[i].size < size) && (k < |xs| ==> size <= xs[k].size)
  }

  /** There is one such place. */
  lemma SpotOnce(d: Design, xs: seq<Block>, size: int, j: nat, k: nat)
    requires Spot(d, xs, size, j) && Spot(d, xs, size, k)
    ensures j == k
  {
  }

  /** The block that the search stops at: in an ascending list the first that fits; in a descending list the first of
      exactly the right size, or else the last that fits. */
  ghost predicate Stop(d: Design, xs: seq<Block>, need: int, k: nat) {
    && k < |xs| && xs[k].size >= need
    && if d.Floor? && xs[k].size != need then forall i :: k < i < |xs| ==> xs[i].size < need
       else forall i :: 0 <= i < k ==> if d.Floor? then xs[i].size > need else xs[i].size < need
  }

  /** The search stops at `b` in the list of its class. */
  ghost predicate StopsAt(d: Design, ls: seq<seq<Block>>, b: Block, need: int) {
    && b.size >= 0 && Class(d, b.size) < |ls|
    && exists k: nat :: Stop(d, ls[Class(d, b.size)], need, k) && ls[Class(d, b.size)][k] == b
  }

  /** From `ls` to `ls'` the block `b` joined the list of its class at its place, and nothing else changed. */
  ghost predicate EntersList(d: Design, ls: seq<seq<Block>>, ls': seq<seq<Block>>, b: Block)
    requires b.size >= 0
  {
    var c := Class(d, b.size);
    c < |ls| && exists k: nat :: k <= |ls[c]| && Spot(d, ls[c], b.size, k) && ls' == ls[c := Inserted(ls[c], k, b)]
  }

  // ---------- leaving a list ----------

  /** Where a listed block is. */
  lemma Whereabouts(d: Design, m: seq<int>, bs: seq<Block>, ls: seq<seq<Block>>, out: set<Block>, b: Block) returns (c: nat, k: nat)
    requires SegInv(d, m, bs, ls, out) && b in bs && b.free && b !in out
    ensures b.size >= LEAST && c == Class(d, b.size) && c < Lists(d) && |ls| == Lists(d) && k < |ls[c]| && ls[c][k] == b
    ensures Chain(d, m, 4 * c, ls[c])
    ensures Base(d) <= b.addr && b.addr + b.size <= |m| && m[b.addr - 4] == TagWord(d, b) && b.size % 8 == 0
  {
    hide Class, Chain, Boundary, Tiles, TagWord;
    assert Tagged(d, m, b);
    BlocksApart(bs, b, b, Base(d), End(d, m));
    c := Class(d, b.size);
    k :| 0 <= k < |ls[c]| && ls[c][k] == b;
  }

  lemma PopReady(d: Design, m: seq<int>, cell: int, xs: seq<Block>, k: nat)
    requires Chain(d, m, cell, xs) && k < |xs|
    ensures InHeap(m, xs[k]) && 0 <= cell && Aligned(cell) && cell + 4 <= LISTS_END <= |m|
    ensures (k > 0 ==> InHeap(m, xs[k - 1]) && Away(xs[k], xs[k - 1]))
    ensures (k + 1 < |xs| ==> InHeap(m, xs[k + 1]) && Away(xs[k], xs[k + 1]))
    ensures m[xs[k].addr] == PredOf(d, xs, k) && m[xs[k].addr + 4] == SuccOf(d, xs, k)
  {
    ChainInHeap(d, m, cell, xs, k);
    if k > 0 {
      ChainInHeap(d, m, cell, xs, k - 1);
      ChainAway(d, m, cell, xs, k, k - 1);
    }
    if k + 1 < |xs| {
      ChainInHeap(d, m, cell, xs, k + 1);
      ChainAway(d, m, cell, xs, k, k + 1);
    }
  }

  lemma PoppedInv(d: Design, m: seq<int>, bs: seq<Block>, ls: seq<seq<Block>>, out: set<Block>, b: Block, c: nat, k: nat)
    requires SegInv(d, m, bs, ls, out) && b in bs && b.free && b !in out && b.size >= 0
    requires c == Class(d, b.size) && c < Lists(d) && k < |ls[c]| && ls[c][k] == b
    requires 4 * c < |m| && (k > 0 ==> InHeap(m, ls[c][k - 1])) && (k + 1 < |ls[c]| ==> InHeap(m, ls[c][k + 1]))
    ensures SegInv(d, Popped(d, m, 4 * c, ls[c], k), bs, ls[c := Without(ls[c], k)], out + {b})
    ensures OnlyLinks(d, m, Popped(d, m, 4 * c, ls[c], k), bs)
  {
    var m', xs := Popped(d, m, 4 * c, ls[c], k), ls[c];
    assert Chain(d, m, 4 * c, xs);
    PoppedChain(d, m, 4 * c, xs, k);
    OtherChains(d, m, m', bs, ls, out, c, xs);
    LayoutLinks(d, m, m', bs);
    PoppedListed(d, bs, ls, out, b, c, k);
  }

  lemma PoppedListed(d: Design, bs: seq<Block>, ls: seq<seq<Block>>, out: set<Block>, b: Block, c: nat, k: nat)
    requires Listed(d, bs, ls, out) && c < Lists(d) && k < |ls[c]| && ls[c][k] == b && Spread(ls[c])
    ensures Listed(d, bs, ls[c := Without(ls[c], k)], out + {b})
  {
    assert out + {b} - {} == out + {b};
    var xs, ys := ls[c], Without(ls[c], k);
    forall x ensures x in ys <==> x in xs && x != b {
      if x in ys {
        var j :| 0 <= j < |ys| && ys[j] == x;
        assert x == xs[if j < k then j else j + 1];
        SpreadAt(xs, if j < k then j else j + 1, k);
      }
      if x in xs && x != b {
        var j :| 0 <= j < |xs| && xs[j] == x;
        assert ys[if j < k then j else j - 1] == x;
      }
    }
    assert b in xs;
    hide Without, Spread, Class;
    ListedUpdate(d, bs, ls, out, c, ys, {b}, {});
  }

  /** List `c` changes: the blocks of `gone` leave it, those of `back` join it. */
  lemma ListedUpdate(d: Design, bs: seq<Block>, ls: seq<seq<Block>>, out: set<Block>, c: nat, ys: seq<Block>,
      gone: set<Block>, back: set<Block>)
    requires Listed(d, bs, ls, out) && c < Lists(d)
    requires forall x :: x in gone + back ==> x in bs && x.free && x.size >= 0 && Class(d, x.size) == c
    requires forall x :: x in ys <==> (x in ls[c] && x !in gone) || x in back
    requires gone !! back
    ensures Listed(d, bs, ls[c := ys], out + gone - back)
  {
    hide Class;
    var ls', out' := ls[c := ys], out + gone - back;
    forall x | x in bs && x.free && x !in out' ensures x.size >= 0 && Class(d, x.size) < Lists(d) && x in ls'[Class(d, x.size)] {
      if x !in back {
        assert x !in out && x !in gone;
      }
    }
    forall e, x | 0 <= e < Lists(d) && x in ls'[e] ensures x in bs && x.free && x !in out' && x.size >= 0 && Class(d, x.size) == e {
      if e != c {
        assert x in ls[e];
      }
    }
  }

  // ---------- joining a list ----------

  lemma ChainHead(d: Design, m: seq<int>, cell: int, xs: seq<Block>)
    requires Chain(d, m, cell, xs)
    ensures 0 <= cell < |m| && m[cell] == HeadOf(d, xs) && (xs != [] ==> HeadOf(d, xs) != NULL)
    ensures Ordered(d, xs) && Spread(xs)
  {
    assert xs != [] ==> Linked(d, m, xs, 0);
  }

  /** At the front the order of the writes does not matter. */
  lemma PushedFirst(d: Design, m: seq<int>, cell: int, xs: seq<Block>, b: Block)
    requires 0 <= cell && cell + 4 <= LISTS_END && InHeap(m, b) && (xs != [] ==> InHeap(m, xs[0]) && Away(xs[0], b))
    ensures xs == [] ==> Pushed(d, m, cell, xs, 0, b) == m[cell := Ptr(d, b)][b.addr := NULL][b.addr + 4 := NULL]
    ensures xs != [] ==>
      Pushed(d, m, cell, xs, 0, b) == m[cell := Ptr(d, b)][b.addr := NULL][b.addr + 4 := Ptr(d, xs[0])][xs[0].addr := Ptr(d, b)]
  {
  }

  lemma JoinsHere(d: Design, m: seq<int>, xs: seq<Block>, k: nat, b: Block)
    requires k <= |xs| && InHeap(m, b) && b.size % 8 == 0 && m[b.addr - 4] == TagWord(d, b) && forall i :: 0 <= i < |xs| ==> Away(xs[i], b)
    requires forall i :: 0 <= i < k ==> Upto(d, xs[i].size, b.size)
    requires forall i :: k <= i < |xs| ==> Upto(d, b.size, xs[i].size)
    ensures Joins(d, m, xs, k, b)
  {
  }

  /** A block that comes before the head comes before all. */
  lemma JoinsFirst(d: Design, m: seq<int>, xs: seq<Block>, b: Block)
    requires InHeap(m, b) && b.size % 8 == 0 && m[b.addr - 4] == TagWord(d, b) && forall i :: 0 <= i < |xs| ==> Away(xs[i], b)
    requires Ordered(d, xs) && (xs != [] ==> Upto(d, b.size, xs[0].size))
    ensures Joins(d, m, xs, 0, b)
  {
    forall i | 0 <= i < |xs| ensures Upto(d, b.size, xs[i].size) {
      assert 0 < i ==> Upto(d, xs[0].size, xs[i].size);
    }
  }

  lemma PushedInv(d: Design, m: seq<int>, bs: seq<Block>, ls: seq<seq<Block>>, out: set<Block>, b: Block, c: nat, k: nat)
    requires SegInv(d, m, bs, ls, out) && b in bs && b.free && b in out && b.size >= 0 && c == Class(d, b.size) && c < Lists(d)
    requires k <= |ls[c]| && Joins(d, m, ls[c], k, b) && InHeap(m, b)
    requires 4 * c < |m| && (k > 0 ==> InHeap(m, ls[c][k - 1])) && (k < |ls[c]| ==> InHeap(m, ls[c][k]))
    ensures SegInv(d, Pushed(d, m, 4 * c, ls[c], k, b), bs, ls[c := Inserted(ls[c], k, b)], out - {b})
    ensures OnlyLinks(d, m, Pushed(d, m, 4 * c, ls[c], k, b), bs)
  {
    hide Class, Layout, OnlyLinks, OnlyChain, Joins, Pushed, Inserted, Chain;
    var m', ys := Pushed(d, m, 4 * c, ls[c], k, b), Inserted(ls[c], k, b);
    assert Chain(d, m, 4 * c, ls[c]);
    PushedChain(d, m, 4 * c, ls[c], k, b);
    InsertedMembers(ls[c], k, b);
    OtherChains(d, m, m', bs, ls, out, c, ys);
    LayoutLinks(d, m, m', bs);
    assert b !in ls[c] && out + {} - {b} == out - {b};
    ListedUpdate(d, bs, ls, out, c, ys, {}, {b});
  }

  /** A free block that waits for its list. */
  lemma PushReady(d: Design, m: seq<int>, bs: seq<Block>, ls: seq<seq<Block>>, out: set<Block>, b: Block) returns (c: nat)
    requires SegInv(d, m, bs, ls, out) && b in bs && b.free && b in out && |m| <= TWO32
    ensures b.size >= LEAST && c == Class(d, b.size) && c < Lists(d) && |ls| == Lists(d)
    ensures Chain(d, m, 4 * c, ls[c]) && InHeap(m, b) && b.size % 8 == 0 && m[b.addr - 4] == TagWord(d, b)
    ensures forall i :: 0 <= i < |ls[c]| ==> Away(ls[c][i], b)
  {
    hide Class, TagWord, Boundary, Chain, Tiles;
    assert Tagged(d, m, b);
    BlocksApart(bs, b, b, Base(d), End(d, m));
    c := Class(d, b.size);
    ClassFits(d, b.size);
    assert Chain(d, m, 4 * c, ls[c]);
    forall i | 0 <= i < |ls[c]| ensures Away(ls[c][i], b) {
      var x := ls[c][i];
      assert x in ls[c] && Tagged(d, m, x);
      BlocksApart(bs, x, b, Base(d), End(d, m));
    }
  }

  // ---------- the best fit ----------

  /** No block below class `c` is large enough. */
  ghost predicate FitsFrom(d: Design, bs: seq<Block>, asize: nat, c: nat) {
    forall x :: x in bs && x.free && x.size >= asize ==> Class(d, x.size) >= c
  }

  lemma FitStart(d: Design, bs: seq<Block>, asize: nat, c: nat)
    requires c <= Class(d, asize)
    ensures FitsFrom(d, bs, asize, c)
  {
    forall x | x in bs && x.free && x.size >= asize ensures Class(d, x.size) >= c {
      if Class(d, x.size) < Class(d, asize) {
        ClassOrder(d, x.size, asize);
      }
    }
  }

  lemma ListChain(d: Design, m: seq<int>, bs: seq<Block>, ls: seq<seq<Block>>, c: nat)
    requires SegInv(d, m, bs, ls, {}) && c < Lists(d)
    ensures |ls| == Lists(d) && Chain(d, m, 4 * c, ls[c])
  {
    assert Chain(d, m, 4 * c, ls[c]);
  }

  lemma FitNotHere(d: Design, m: seq<int>, bs: seq<Block>, ls: seq<seq<Block>>, c: nat, asize: nat)
    requires SegInv(d, m, bs, ls, {}) && FitsFrom(d, bs, asize, c) && c < Lists(d) && |ls| == Lists(d)
    requires forall b :: b in ls[c] ==> b.size < asize
    ensures FitsFrom(d, bs, asize, c + 1)
    ensures c + 1 == Lists(d) ==> !SomeFit(bs, asize)
  {
    hide Class, Layout, Chains;
    forall x | x in bs && x.free && x.size >= asize ensures Class(d, x.size) >= c + 1 && c + 1 < Lists(d) {
      assert Class(d, x.size) != c && Class(d, x.size) < Lists(d);
    }
  }

  /** The smallest sufficient block of the first class that has one is a smallest sufficient block of the heap. */
  lemma FitFound(d: Design, m: seq<int>, bs: seq<Block>, ls: seq<seq<Block>>, c: nat, b: Block, asize: nat)
    requires SegInv(d, m, bs, ls, {}) && FitsFrom(d, bs, asize, c) && c < Lists(d) && |ls| == Lists(d)
    requires b in ls[c] && b.size >= asize && forall x :: x in ls[c] && x.size >= asize ==> b.size <= x.size
    ensures Smallest(bs, b, asize) && SomeFit(bs, asize) && b.size >= 0 && Class(d, b.size) == c
  {
    hide Class, Layout, Chains;
    forall x | x in bs && x.free && x.size >= asize ensures b.size <= x.size {
      if Class(d, x.size) != c {
        ClassOrder(d, b.size, x.size);
      }
    }
  }
}
