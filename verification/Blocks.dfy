/** The heap as a sequence of adjacent blocks, and what malloc and free do to that sequence. */
module Blocks {

  /** A block starts at `addr` and has `size` bytes, header included. */
  datatype Block = Block(addr: int, size: int, free: bool)

  /** `bs` tiles the bytes from `from` to `to`; sizes are positive multiples of eight. */
  ghost predicate Tiles(bs: seq<Block>, from: int, to: int) {
    if bs == [] then
      from == to
    else
      && bs[0].addr == from && bs[0].size >= 8 && bs[0].size % 8 == 0
      && Tiles(bs[1..], from + bs[0].size, to)
  }

  lemma {:induction false} TilesConcat(xs: seq<Block>, ys: seq<Block>, from: int, mid: int, to: int)
    requires Tiles(xs, from, mid) && Tiles(ys, mid, to)
    ensures Tiles(xs + ys, from, to)
  {
    if xs == [] {
      assert xs + ys == ys;
    } else {
      TilesConcat(xs[1..], ys, from + xs[0].size, mid, to);
      assert (xs + ys)[1..] == xs[1..] + ys;
    }
  }

  /** The address where block `k` starts, or the end of the tiling. */
  function Start(bs: seq<Block>, k: nat, to: int): int
    requires k <= |bs|
  {
    if k < |bs| then bs[k].addr else to
  }

  lemma {:induction false} TilesSplit(bs: seq<Block>, k: nat, from: int, to: int)
    requires Tiles(bs, from, to) && k <= |bs|
    ensures Tiles(bs[..k], from, Start(bs, k, to)) && Tiles(bs[k..], Start(bs, k, to), to)
    ensures from <= Start(bs, k, to) <= to && (Start(bs, k, to) - from) % 8 == 0
  {
    if k == 0 {
      TilesBounds(bs, from, to);
    } else {
      TilesSplit(bs[1..], k - 1, from + bs[0].size, to);
      assert bs[..k][1..] == bs[1..][..k - 1] && bs[k..] == bs[1..][k - 1..];
      assert Start(bs[1..], k - 1, to) == Start(bs, k, to);
    }
  }

  lemma {:induction false} TilesBounds(bs: seq<Block>, from: int, to: int)
    requires Tiles(bs, from, to)
    ensures from <= to && (bs == [] ==> from == to)
  {
    if bs != [] {
      TilesBounds(bs[1..], from + bs[0].size, to);
    }
  }

  /** What a tiling says about block `k`. */
  lemma TileAt(bs: seq<Block>, k: nat, from: int, to: int)
    requires Tiles(bs, from, to) && k < |bs|
    ensures var b := bs[k];
      && from <= b.addr && b.addr + b.size == Start(bs, k + 1, to) <= to
      && b.size >= 8 && b.size % 8 == 0 && (b.addr - from) % 8 == 0
  {
    TilesSplit(bs, k, from, to);
    TilesSplit(bs, k + 1, from, to);
    assert bs[k..][1..] == bs[k + 1..];
    TilesAgree(bs[k + 1..], bs[k].addr + bs[k].size, Start(bs, k + 1, to), to);
  }

  lemma {:induction false} TilesAgree(bs: seq<Block>, f: int, g: int, to: int)
    requires Tiles(bs, f, to) && Tiles(bs, g, to)
    ensures f == g
  {
  }

  /** Earlier blocks end before later ones start. */
  lemma {:induction false} TilesOrder(bs: seq<Block>, j: nat, k: nat, from: int, to: int)
    requires Tiles(bs, from, to) && j < k < |bs|
    ensures bs[j].addr + bs[j].size <= bs[k].addr
    decreases k - j
  {
    TileAt(bs, j, from, to);
    if j + 1 < k {
      TilesOrder(bs, j + 1, k, from, to);
      TileAt(bs, j + 1, from, to);
    }
  }

  /** Different blocks do not overlap. */
  lemma BlocksApart(bs: seq<Block>, b: Block, c: Block, from: int, to: int)
    requires Tiles(bs, from, to) && b in bs && c in bs
    ensures b == c || b.addr + b.size <= c.addr || c.addr + c.size <= b.addr
    ensures from <= b.addr && b.addr + b.size <= to && b.size >= 8 && b.size % 8 == 0 && (b.addr - from) % 8 == 0
  {
    var j :| 0 <= j < |bs| && bs[j] == b;
    var k :| 0 <= k < |bs| && bs[k] == c;
    TileAt(bs, j, from, to);
    if j < k {
      TilesOrder(bs, j, k, from, to);
    } else if k < j {
      TilesOrder(bs, k, j, from, to);
    }
  }

  /** Blocks of at least 16 bytes that do not overlap. */
  predicate Away(a: Block, b: Block) {
    a.addr + 16 <= b.addr || b.addr + 16 <= a.addr
  }

  ghost predicate Spread(xs: seq<Block>) {
    forall i, j :: 0 <= i < j < |xs| ==> Away(xs[i], xs[j])
  }

  /** Two positions of a spread list. */
  lemma SpreadAt(xs: seq<Block>, i: nat, j: nat)
    requires Spread(xs) && i < |xs| && j < |xs| && i != j
    ensures xs[i].addr + 16 <= xs[j].addr || xs[j].addr + 16 <= xs[i].addr
  {
  }

  /** Replace blocks `lo..hi` by `mid`. */
  function Splice(bs: seq<Block>, lo: nat, hi: nat, mid: seq<Block>): seq<Block>
    requires lo <= hi <= |bs|
  {
    bs[..lo] + mid + bs[hi..]
  }

  lemma TilesSplice(bs: seq<Block>, lo: nat, hi: nat, mid: seq<Block>, from: int, to: int)
    requires Tiles(bs, from, to) && lo <= hi <= |bs|
    requires Tiles(mid, Start(bs, lo, to), Start(bs, hi, to))
    ensures Tiles(Splice(bs, lo, hi, mid), from, to)
  {
    TilesSplit(bs, lo, from, to);
    TilesSplit(bs, hi, from, to);
    TilesConcat(bs[..lo], mid, from, Start(bs, lo, to), Start(bs, hi, to));
    TilesConcat(bs[..lo] + mid, bs[hi..], from, Start(bs, hi, to), to);
  }

  lemma SpliceMembers(bs: seq<Block>, lo: nat, hi: nat, mid: seq<Block>, b: Block)
    requires lo <= hi <= |bs|
    ensures b in Splice(bs, lo, hi, mid) <==> b in bs[..lo] || b in mid || b in bs[hi..]
  {
  }

  lemma SpliceAt(bs: seq<Block>, lo: nat, hi: nat, mid: seq<Block>)
    requires lo <= hi <= |bs|
    ensures var cs, n := Splice(bs, lo, hi, mid), lo + |mid|;
      && |cs| == n + |bs| - hi && cs[..lo] == bs[..lo] && cs[n..] == bs[hi..]
      && (forall i :: 0 <= i < |mid| ==> cs[lo + i] == mid[i])
      && (lo > 0 ==> cs[lo - 1] == bs[lo - 1]) && (hi < |bs| ==> cs[n] == bs[hi])
  {
  }

  /** No two neighbours are both free. */
  ghost predicate Coalesced(bs: seq<Block>) {
    forall i :: 0 < i < |bs| ==> !(bs[i - 1].free && bs[i].free)
  }

  lemma CoalescedSplice(bs: seq<Block>, lo: nat, hi: nat, mid: seq<Block>)
    requires Coalesced(bs) && Coalesced(mid) && lo <= hi <= |bs| && mid != []
    requires mid[0].free && lo > 0 ==> !bs[lo - 1].free
    requires mid[|mid| - 1].free && hi < |bs| ==> !bs[hi].free
    ensures Coalesced(Splice(bs, lo, hi, mid))
  {
    var ys := Splice(bs, lo, hi, mid);
    forall i | 0 < i < |ys| ensures !(ys[i - 1].free && ys[i].free) {
      if i < lo {
        assert ys[i - 1] == bs[i - 1] && ys[i] == bs[i];
      } else if i == lo {
        assert ys[i - 1] == bs[lo - 1] && ys[i] == mid[0];
      } else if i < lo + |mid| {
        assert ys[i - 1] == mid[i - 1 - lo] && ys[i] == mid[i - lo];
      } else if i == lo + |mid| {
        assert ys[i - 1] == mid[|mid| - 1] && ys[i] == bs[hi];
      } else {
        var j := i - lo - |mid| + hi;
        assert ys[i - 1] == bs[j - 1] && ys[i] == bs[j];
      }
    }
  }

  /** A heap between `malloc` and `free` calls; an allocated block has at least `least` bytes. */
  ghost predicate WellFormed(bs: seq<Block>, from: int, to: int, least: int) {
    Tiles(bs, from, to) && Coalesced(bs) && forall b :: b in bs && !b.free ==> b.size >= least
  }

  // ---------- what malloc does ----------

  ghost predicate SomeFit(bs: seq<Block>, need: int) {
    exists b :: b in bs && b.free && b.size >= need
  }

  /** The low end of `b` is allocated, the rest (if any) stays free. */
  function Cut(b: Block, need: int): (mid: seq<Block>)
    ensures mid != []
  {
    [Block(b.addr, need, false)] + (if b.size > need then [Block(b.addr + need, b.size - need, true)] else [])
  }

  function Carve(bs: seq<Block>, k: nat, need: int): seq<Block>
    requires k < |bs|
  {
    Splice(bs, k, k + 1, Cut(bs[k], need))
  }

  lemma CarveWellFormed(bs: seq<Block>, k: nat, need: int, from: int, to: int, least: int)
    requires WellFormed(bs, from, to, least) && k < |bs| && bs[k].free
    requires least <= need <= bs[k].size && need % 8 == 0 && need >= 8
    ensures WellFormed(Carve(bs, k, need), from, to, least)
  {
    var b, mid := bs[k], Cut(bs[k], need);
    TileAt(bs, k, from, to);
    if b.size > need {
      assert Tiles(mid[1..], b.addr + need, b.addr + b.size);
    }
    TilesSplice(bs, k, k + 1, mid, from, to);
    CoalescedSplice(bs, k, k + 1, mid);
  }

  /** Is the last block free? Then a growing heap extends it. */
  predicate EndsFree(bs: seq<Block>) {
    bs != [] && bs[|bs| - 1].free
  }

  /** Where a block that needs a larger heap starts. */
  function GrowStart(bs: seq<Block>, to: int): int {
    if EndsFree(bs) then bs[|bs| - 1].addr else to
  }

  function Kept(bs: seq<Block>): seq<Block> {
    if EndsFree(bs) then bs[..|bs| - 1] else bs
  }

  function Grow(bs: seq<Block>, to: int, need: int): seq<Block> {
    Kept(bs) + [Block(GrowStart(bs, to), need, false)]
  }

  lemma GrowWellFormed(bs: seq<Block>, need: int, from: int, to: int, least: int)
    requires WellFormed(bs, from, to, least) && least <= need && need % 8 == 0 && need >= 8
    ensures WellFormed(Grow(bs, to, need), from, GrowStart(bs, to) + need, least)
    ensures Tiles(Kept(bs), from, GrowStart(bs, to)) && from <= GrowStart(bs, to) <= to
  {
    var n, a := |Kept(bs)|, GrowStart(bs, to);
    TilesSplit(bs, n, from, to);
    assert Kept(bs) == bs[..n] && Start(bs, n, to) == a;
    var mid := [Block(a, need, false)];
    assert mid[1..] == [];
    TilesConcat(Kept(bs), mid, from, a, a + need);
  }

  // ---------- what free does ----------

  function First(bs: seq<Block>, k: nat): nat
    requires k < |bs|
  {
    if k > 0 && bs[k - 1].free then k - 1 else k
  }

  function Past(bs: seq<Block>, k: nat): nat
    requires k < |bs|
  {
    if k + 1 < |bs| && bs[k + 1].free then k + 2 else k + 1
  }

  /** The free block that replaces block `k` and its free neighbours. */
  function Merged(bs: seq<Block>, k: nat): Block
    requires k < |bs|
  {
    var before := if k > 0 && bs[k - 1].free then bs[k - 1].size else 0;
    var after := if k + 1 < |bs| && bs[k + 1].free then bs[k + 1].size else 0;
    Block(bs[First(bs, k)].addr, before + bs[k].size + after, true)
  }

  function Release(bs: seq<Block>, k: nat): seq<Block>
    requires k < |bs|
  {
    Splice(bs, First(bs, k), Past(bs, k), [Merged(bs, k)])
  }

  lemma MergedIn(bs: seq<Block>, k: nat)
    requires k < |bs|
    ensures Merged(bs, k).free && Merged(bs, k) in Release(bs, k)
  {
    assert Release(bs, k)[First(bs, k)] == Merged(bs, k);
  }

  lemma MergedSize(a: int, b: int, c: int)
    requires a % 8 == 0 && b % 8 == 0 && c % 8 == 0
    ensures (a + b + c) % 8 == 0
  {
  }

  lemma MergedTiles(bs: seq<Block>, k: nat, from: int, to: int)
    requires Tiles(bs, from, to) && k < |bs|
    ensures Tiles([Merged(bs, k)], Start(bs, First(bs, k), to), Start(bs, Past(bs, k), to))
  {
    TileAt(bs, k, from, to);
    if k > 0 {
      TileAt(bs, k - 1, from, to);
    }
    if k + 1 < |bs| {
      TileAt(bs, k + 1, from, to);
    }
    hide Tiles;
    MergedSize(if k > 0 && bs[k - 1].free then bs[k - 1].size else 0, bs[k].size,
      if k + 1 < |bs| && bs[k + 1].free then bs[k + 1].size else 0);
    OneTile(Merged(bs, k), Start(bs, First(bs, k), to), Start(bs, Past(bs, k), to));
  }

  lemma OneTile(b: Block, from: int, to: int)
    requires b.addr == from && b.size >= 8 && b.size % 8 == 0 && from + b.size == to
    ensures Tiles([b], from, to)
  {
    assert [b][1..] == [];
  }

  lemma ReleaseWellFormed(bs: seq<Block>, k: nat, from: int, to: int, least: int)
    requires WellFormed(bs, from, to, least) && k < |bs| && !bs[k].free
    ensures WellFormed(Release(bs, k), from, to, least)
  {
    MergedTiles(bs, k, from, to);
    TilesSplice(bs, First(bs, k), Past(bs, k), [Merged(bs, k)], from, to);
    CoalescedSplice(bs, First(bs, k), Past(bs, k), [Merged(bs, k)]);
  }

  /** Does a block still start where the freed block started? Exactly if the block before it was not free. */
  lemma ReleasedStart(bs: seq<Block>, k: nat, from: int, to: int)
    requires Tiles(bs, from, to) && k < |bs| && !bs[k].free
    ensures (exists b :: b in Release(bs, k) && b.addr == bs[k].addr) <==> !(k > 0 && bs[k - 1].free)
    ensures forall b :: b in Release(bs, k) && b.addr == bs[k].addr ==> b.free
  {
    var lo, hi, rs, c := First(bs, k), Past(bs, k), Release(bs, k), Merged(bs, k);
    assert rs[lo] == c;
    forall b | b in rs && b.addr == bs[k].addr ensures b == c && lo == k {
      SpliceMembers(bs, lo, hi, [c], b);
      if b != c {
        var j :| 0 <= j < |bs| && bs[j] == b && (j < lo || hi <= j);
        TileAt(bs, if j < k then j else k, from, to);
        TilesOrder(bs, if j < k then j else k, if j < k then k else j, from, to);
        assert false;
      }
      if lo < k {
        TileAt(bs, lo, from, to);
        TilesOrder(bs, lo, k, from, to);
      }
    }
  }

  /** A heap in which that happens: after the middle block is freed, nothing starts at its address, nor at that of the
      free block behind it. */
  lemma LostStart()
    ensures var bs := [Block(24, 24, true), Block(48, 24, false), Block(72, 24, true)];
      && WellFormed(bs, 24, 96, 24) && Release(bs, 1) == [Block(24, 72, true)]
      && forall b :: b in Release(bs, 1) ==> b.addr != 48 && b.addr != 72
  {
    var bs := [Block(24, 24, true), Block(48, 24, false), Block(72, 24, true)];
    assert bs[1..] == [bs[1], bs[2]] && [bs[1], bs[2]][1..] == [bs[2]];
    OneTile(bs[2], 72, 96);
  }

  /** Freeing a block right after it was carved out of a free block restores the old partition. */
  lemma CarveRelease(bs: seq<Block>, k: nat, need: int)
    requires Coalesced(bs) && k < |bs| && bs[k].free && need <= bs[k].size
    ensures k < |Carve(bs, k, need)| && Release(Carve(bs, k, need), k) == bs
  {
    var cs := Carve(bs, k, need);
    assert cs[k] == Block(bs[k].addr, need, false);
    assert k > 0 ==> cs[k - 1] == bs[k - 1];
    assert k + 1 < |bs| ==> !bs[k + 1].free;
    if bs[k].size > need {
      assert cs[k + 1] == Block(bs[k].addr + need, bs[k].size - need, true);
      assert cs[k + 2..] == bs[k + 1..];
    } else {
      assert k + 1 < |bs| ==> cs[k + 1] == bs[k + 1];
      assert cs[k + 1..] == bs[k + 1..];
    }
    assert Merged(cs, k) == bs[k];
  }

  /** The carved block is found again at the same index. */
  lemma {:induction false} CarveIndex(bs: seq<Block>, k: nat, need: int, from: int, to: int)
    requires Tiles(bs, from, to) && k < |bs|
    ensures k < |Carve(bs, k, need)| && Carve(bs, k, need)[k] == Block(bs[k].addr, need, false)
    ensures IndexOf(Carve(bs, k, need), bs[k].addr) == k
  {
    var cs, a := Carve(bs, k, need), bs[k].addr;
    assert cs[k] == Block(a, need, false);
    forall j | 0 <= j < k ensures cs[j].addr != a {
      assert cs[j] == bs[j];
      TilesOrder(bs, j, k, from, to);
      TileAt(bs, j, from, to);
    }
    FirstIndex(cs, a, k);
  }

  lemma {:induction false} FirstIndex(bs: seq<Block>, a: int, k: nat)
    requires k < |bs| && bs[k].addr == a && forall j :: 0 <= j < k ==> bs[j].addr != a
    ensures IndexOf(bs, a) == k
  {
    if k > 0 {
      FirstIndex(bs[1..], a, k - 1);
    }
  }

  // ---------- freeing everything ----------

  function Used(bs: seq<Block>): set<Block> {
    set b | b in bs && !b.free
  }

  lemma ReleaseUsed(bs: seq<Block>, k: nat, from: int, to: int)
    requires Tiles(bs, from, to) && k < |bs| && !bs[k].free
    ensures Used(Release(bs, k)) == Used(bs) - {bs[k]}
  {
    var lo, hi, rs := First(bs, k), Past(bs, k), Release(bs, k);
    forall b ensures b in Used(rs) <==> b in Used(bs) && b != bs[k] {
      SpliceMembers(bs, lo, hi, [Merged(bs, k)], b);
      if b in bs[..lo] {
        var j :| 0 <= j < lo && bs[j] == b;
        TilesOrder(bs, j, k, from, to);
        TileAt(bs, j, from, to);
      }
      if b in bs[hi..] {
        var j :| hi <= j < |bs| && bs[j] == b;
        TilesOrder(bs, k, j, from, to);
        TileAt(bs, k, from, to);
      }
      if b in bs && b != bs[k] && !b.free {
        var j :| 0 <= j < |bs| && bs[j] == b;
        assert j < lo ==> bs[..lo][j] == b;
        assert hi <= j ==> bs[hi..][j - hi] == b;
      }
    }
  }

  /** The index of the block that starts at `a`. */
  function IndexOf(bs: seq<Block>, a: int): nat
    requires exists b :: b in bs && b.addr == a
    ensures IndexOf(bs, a) < |bs| && bs[IndexOf(bs, a)].addr == a
  {
    if bs[0].addr == a then 0 else
      assert forall b :: b in bs <==> b == bs[0] || b in bs[1..];
      1 + IndexOf(bs[1..], a)
  }

  /** `order` lists allocated blocks to free, one after the other; the final partition is `rs`. */
  ghost predicate Frees(bs: seq<Block>, order: seq<Block>, rs: seq<Block>)
    decreases |order|
  {
    if order == [] then rs == bs
    else exists k: nat :: k < |bs| && bs[k] == order[0] && !bs[k].free && Frees(Release(bs, k), order[1..], rs)
  }

  lemma NothingUsed(bs: seq<Block>, from: int, to: int, least: int)
    requires WellFormed(bs, from, to, least) && Used(bs) == {}
    ensures bs == if from == to then [] else [Block(from, to - from, true)]
  {
    forall b | b in bs ensures b.free {
      assert b !in Used(bs);
    }
    TilesBounds(bs, from, to);
    if bs != [] {
      assert bs[0].free && (|bs| > 1 ==> bs[1 - 1].free && bs[1].free);
      TileAt(bs, 0, from, to);
      assert bs == [bs[0]];
    }
  }

  /** Freeing all allocated blocks, in whatever order, leaves one free block spanning the heap (or none). */
  lemma {:induction false} FreesAll(bs: seq<Block>, order: seq<Block>, rs: seq<Block>, from: int, to: int, least: int)
    requires WellFormed(bs, from, to, least) && Frees(bs, order, rs)
    requires forall b :: b in Used(bs) ==> b in order
    ensures rs == if from == to then [] else [Block(from, to - from, true)]
    decreases |order|
  {
    if order == [] {
      assert forall b :: b !in order;
      NothingUsed(bs, from, to, least);
    } else {
      var k: nat :| k < |bs| && bs[k] == order[0] && !bs[k].free && Frees(Release(bs, k), order[1..], rs);
      ReleaseWellFormed(bs, k, from, to, least);
      ReleaseUsed(bs, k, from, to);
      FreesAll(Release(bs, k), order[1..], rs, from, to, least);
    }
  }

  /** An allocated block starts `skip` bytes before `p`. */
  ghost predicate PointsTo(bs: seq<Block>, p: int, skip: int) {
    exists b :: b in bs && !b.free && b.addr == p - skip
  }

  /** `ptrs` are the pointers to the allocated blocks. */
  ghost predicate Pointers(ptrs: seq<int>, bs: seq<Block>, skip: int) {
    && (forall b :: b in bs && !b.free ==> b.addr + skip in ptrs)
    && (forall p :: p in ptrs ==> PointsTo(bs, p, skip))
  }

  lemma PointerBlock(ptrs: seq<int>, bs: seq<Block>, skip: int) returns (b: Block)
    requires Pointers(ptrs, bs, skip) && ptrs != []
    ensures b in bs && !b.free && b.addr + skip == ptrs[0]
  {
    FirstPoints(ptrs, bs, skip);
    hide Pointers;
    b :| b in bs && !b.free && b.addr == ptrs[0] - skip;
  }

  lemma FirstPoints(ptrs: seq<int>, bs: seq<Block>, skip: int)
    requires Pointers(ptrs, bs, skip) && ptrs != []
    ensures PointsTo(bs, ptrs[0], skip)
  {
    hide PointsTo;
  }

  lemma InRest(ptrs: seq<int>, p: int)
    requires p in ptrs && p != ptrs[0]
    ensures p in ptrs[1..]
  {
  }

  /** Freeing the first of them leaves the others. */
  lemma PointersReleased(ptrs: seq<int>, bs: seq<Block>, skip: int, k: nat, from: int, to: int)
    requires Tiles(bs, from, to) && Pointers(ptrs, bs, skip) && k < |bs| && !bs[k].free
    requires ptrs != [] && ptrs[0] == bs[k].addr + skip && ptrs[0] !in ptrs[1..]
    ensures Pointers(ptrs[1..], Release(bs, k), skip)
  {
    hide PointsTo, Tiles, Release;
    ReleaseUsed(bs, k, from, to);
    forall b | b in Release(bs, k) && !b.free ensures b.addr + skip in ptrs[1..] {
      assert b in Used(Release(bs, k)) && b in bs;
      BlocksApart(bs, b, bs[k], from, to);
      BlocksApart(bs, bs[k], b, from, to);
      InRest(ptrs, b.addr + skip);
    }
    forall p | p in ptrs[1..] ensures PointsTo(Release(bs, k), p, skip) {
      assert p in ptrs && p != ptrs[0];
      StillPoints(bs, p, skip, k, from, to);
    }
  }

  lemma StillPoints(bs: seq<Block>, p: int, skip: int, k: nat, from: int, to: int)
    requires Tiles(bs, from, to) && PointsTo(bs, p, skip) && k < |bs| && !bs[k].free && p != bs[k].addr + skip
    ensures PointsTo(Release(bs, k), p, skip)
  {
    hide Tiles, Release;
    ReleaseUsed(bs, k, from, to);
    var b :| b in bs && !b.free && b.addr == p - skip;
    assert b in Used(bs) - {bs[k]};
  }

  /** Without allocated blocks the heap is one free block, or nothing. */
  lemma NoPointers(bs: seq<Block>, skip: int, from: int, to: int, least: int)
    requires WellFormed(bs, from, to, least) && Pointers([], bs, skip)
    ensures bs == if from == to then [] else [Block(from, to - from, true)]
  {
    forall b | b in bs ensures b.free {
      assert !b.free ==> b.addr + skip in [];
    }
    NothingUsed(bs, from, to, least);
  }
}
