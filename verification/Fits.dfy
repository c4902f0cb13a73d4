/** Requests, fits and placement on the partition of the heap, as the allocators with boundary tags do them. */
module Fits {
  import opened Common
  import opened Blocks

  /** The least size of a block with header, footer and room for two links. */
  const LEAST := 16
  const CHUNKSIZE := 4096
  /** The largest request for which the block size does not wrap around. */
  const LARGEST := TWO32 - 16

  // ---------- sizes ----------

  /** The block size that `mm_malloc` computes, on 32-bit sizes. */
  function Adjusted(size: int): int {
    if size <= 8 then 16 else (size + 15) % TWO32 / 8 * 8
  }

  /** The block has room for header, footer and payload, and no more than that takes, unless the 32-bit sum wraps around. */
  lemma AdjustedFits(size: int)
    requires 0 <= size < TWO32
    ensures Adjusted(size) % 8 == 0
    ensures Adjusted(size) >= size + 8 <==> size <= LARGEST
    ensures size <= LARGEST ==> LEAST <= Adjusted(size) < size + 24 && LeastSize(Adjusted(size), size, 16)
  {
    if 8 < size {
      var n := (size + 15) % TWO32;
      Eighth(n / 8 * 8, n / 8);
      assert n == if size <= LARGEST then size + 15 else size + 15 - TWO32;
    }
  }

  /** No smaller block would do. */
  lemma AdjustedLeast(size: int, n: int)
    requires 0 <= size <= LARGEST && n % 8 == 0 && n >= 16 && n >= size + 8
    ensures Adjusted(size) <= n
  {
    AdjustedFits(size);
    LeastOfAll(Adjusted(size), size, 16, n);
  }

  lemma Eighth(n: int, q: int)
    requires n == q * 8
    ensures n % 8 == 0
  {
  }

  function Max(a: int, b: int): int {
    if a > b then a else b
  }

  // ---------- fits ----------

  /** `b` is a smallest free block with at least `need` bytes. */
  ghost predicate Smallest(bs: seq<Block>, b: Block, need: int) {
    b in bs && b.free && b.size >= need && forall c :: c in bs && c.free && c.size >= need ==> b.size <= c.size
  }

  lemma SmallestFits(bs: seq<Block>, b: Block, need: int)
    requires Smallest(bs, b, need)
    ensures b.free && b.size >= need
  {
  }

  // ---------- placement ----------

  /** The block that `place` allocates in `b`: all of it, its low end or its high end. A rest is kept if it has
      room for a free block. */
  function Placed(b: Block, need: int, low: bool): Block {
    if b.size < need + LEAST then Block(b.addr, b.size, false)
    else if low then Block(b.addr, need, false)
    else Block(b.addr + b.size - need, need, false)
  }

  /** The allocated block and the free rest, in the order of their addresses. */
  function Split(b: Block, need: int, low: bool): seq<Block> {
    if b.size < need + LEAST then [Placed(b, need, low)]
    else if low then [Placed(b, need, low), Block(b.addr + need, b.size - need, true)]
    else [Block(b.addr, b.size - need, true), Placed(b, need, low)]
  }

  function Place(bs: seq<Block>, k: nat, need: int, low: bool): seq<Block>
    requires k < |bs|
  {
    Splice(bs, k, k + 1, Split(bs[k], need, low))
  }

  /** The low end, and all of the block if less than 16 bytes would be left. */
  lemma PlacedLow(b: Block, need: int)
    ensures Placed(b, need, true) == Block(b.addr, if b.size < need + 16 then b.size else need, false)
  {
  }

  lemma SplitTiles(b: Block, need: int, low: bool)
    requires b.size >= 8 && b.size % 8 == 0 && LEAST <= need <= b.size && need % 8 == 0
    ensures Tiles(Split(b, need, low), b.addr, b.addr + b.size)
    ensures Placed(b, need, low) in Split(b, need, low) && need <= Placed(b, need, low).size < need + LEAST
    ensures forall x :: x in Split(b, need, low) ==> x.size >= LEAST
    ensures forall x :: x in Split(b, need, low) && !x.free ==> x == Placed(b, need, low)
  {
    var mid := Split(b, need, low);
    if b.size < need + LEAST {
      OneTile(mid[0], b.addr, b.addr + b.size);
    } else {
      assert mid[1..] == [mid[1]];
      OneTile(mid[1], mid[1].addr, b.addr + b.size);
    }
  }

  /** `place` keeps free blocks apart. */
  lemma PlaceCoalesced(bs: seq<Block>, k: nat, need: int, low: bool)
    requires Coalesced(bs) && k < |bs| && bs[k].free
    ensures Coalesced(Place(bs, k, need, low))
  {
    CoalescedSplice(bs, k, k + 1, Split(bs[k], need, low));
  }

  /** Where the allocated block stands after `place`. */
  function PlacedAt(bs: seq<Block>, k: nat, need: int, low: bool): nat
    requires k < |bs|
  {
    if bs[k].size >= need + LEAST && !low then k + 1 else k
  }

  /** Freeing a block right after it was placed restores the partition of the heap. */
  lemma PlaceRelease(bs: seq<Block>, k: nat, need: int, low: bool)
    requires Coalesced(bs) && k < |bs| && bs[k].free
    ensures var cs, j := Place(bs, k, need, low), PlacedAt(bs, k, need, low);
      j < |cs| && cs[j] == Placed(bs[k], need, low) && Release(cs, j) == bs
  {
    var mid, cs, j := Split(bs[k], need, low), Place(bs, k, need, low), PlacedAt(bs, k, need, low);
    SpliceAt(bs, k, k + 1, mid);
    assert (k > 0 ==> !bs[k - 1].free) && (k + 1 < |bs| ==> !bs[k + 1].free);
    hide Splice, Coalesced;
    assert cs[k] == mid[0] && (|mid| > 1 ==> cs[k + 1] == mid[1]);
    Restored(bs, cs, k, j, |mid|);
  }

  lemma Restored(bs: seq<Block>, cs: seq<Block>, k: nat, j: nat, n: nat)
    requires k < |bs| && j < |cs| && k + n <= |cs| && cs[..k] == bs[..k] && cs[k + n..] == bs[k + 1..]
    requires First(cs, j) == k && Past(cs, j) == k + n && Merged(cs, j) == bs[k]
    ensures Release(cs, j) == bs
  {
    assert bs[..k] + [bs[k]] + bs[k + 1..] == bs;
  }

  /** The address that `malloc` returns leads `free` back to that block. */
  lemma PlaceIndex(bs: seq<Block>, k: nat, need: int, low: bool, from: int, to: int)
    requires Tiles(bs, from, to) && k < |bs| && bs[k].free && LEAST <= need <= bs[k].size && need % 8 == 0
    ensures var cs := Place(bs, k, need, low);
      Placed(bs[k], need, low) in cs && IndexOf(cs, Placed(bs[k], need, low).addr) == PlacedAt(bs, k, need, low)
  {
    hide Tiles;
    var mid, cs, j := Split(bs[k], need, low), Place(bs, k, need, low), PlacedAt(bs, k, need, low);
    TileAt(bs, k, from, to);
    SplitTiles(bs[k], need, low);
    TilesSplice(bs, k, k + 1, mid, from, to);
    assert cs[j] == mid[j - k] == Placed(bs[k], need, low);
    forall i | 0 <= i < j ensures cs[i].addr != cs[j].addr {
      TilesOrder(cs, i, j, from, to);
      TileAt(cs, i, from, to);
    }
    FirstIndex(cs, cs[j].addr, j);
  }

  /** The placed block overlaps no block that was allocated before. */
  lemma PlacedFresh(bs: seq<Block>, k: nat, need: int, low: bool, from: int, to: int, b: Block)
    requires Tiles(bs, from, to) && k < |bs| && bs[k].free && LEAST <= need <= bs[k].size && b in bs && !b.free
    ensures var p := Placed(bs[k], need, low); b.addr + b.size <= p.addr || p.addr + p.size <= b.addr
  {
    hide Tiles;
    BlocksApart(bs, b, bs[k], from, to);
  }

  lemma PlacedNew(bs: seq<Block>, k: nat, need: int, low: bool, from: int, to: int)
    requires Tiles(bs, from, to) && k < |bs| && bs[k].free && LEAST <= need <= bs[k].size
    ensures Placed(bs[k], need, low) !in bs && !Placed(bs[k], need, low).free
  {
    hide Tiles;
    if Placed(bs[k], need, low) in bs {
      PlacedFresh(bs, k, need, low, from, to, Placed(bs[k], need, low));
      assert false;
    }
  }

  // ---------- growth ----------

  /** The partition after the heap has grown by `n` bytes. */
  function Extended(bs: seq<Block>, to: int, n: int): seq<Block> {
    Release(bs + [Block(to, n, true)], |bs|)
  }

  /** Growing extends the last block if that is free. */
  lemma ExtendedLast(bs: seq<Block>, from: int, to: int, n: int)
    requires Tiles(bs, from, to)
    ensures Extended(bs, to, n) == Kept(bs) + [Block(GrowStart(bs, to), to + n - GrowStart(bs, to), true)]
    ensures GrowStart(bs, to) <= to
  {
    var cs := bs + [Block(to, n, true)];
    if bs != [] {
      TileAt(bs, |bs| - 1, from, to);
      assert cs[|bs| - 1] == bs[|bs| - 1];
    }
    assert Merged(cs, |bs|) == Block(GrowStart(bs, to), to + n - GrowStart(bs, to), true);
    assert cs[..First(cs, |bs|)] == Kept(bs) && cs[Past(cs, |bs|)..] == [];
  }

  lemma ExtendedCoalesced(bs: seq<Block>, from: int, to: int, n: int)
    requires Tiles(bs, from, to) && Coalesced(bs)
    ensures Coalesced(Extended(bs, to, n))
  {
    ExtendedLast(bs, from, to, n);
    var cs := Extended(bs, to, n);
    forall i | 0 < i < |cs| ensures !(cs[i - 1].free && cs[i].free) {
      assert cs[i - 1] == bs[i - 1] && (i < |Kept(bs)| ==> cs[i] == bs[i]);
      assert EndsFree(bs) && i == |cs| - 1 ==> bs[i].free;
    }
  }

  lemma MergedStart(bs: seq<Block>, b: Block)
    ensures Merged(bs + [b], |bs|).addr == GrowStart(bs, b.addr)
  {
    assert bs != [] ==> (bs + [b])[|bs| - 1] == bs[|bs| - 1];
  }

  lemma GrowStartWhere(bs: seq<Block>, from: int, to: int)
    requires Tiles(bs, from, to)
    ensures from <= GrowStart(bs, to) <= to
  {
    TilesBounds(bs, from, to);
    if bs != [] {
      TileAt(bs, |bs| - 1, from, to);
    }
  }

  /** The partition in which `mm_malloc` places a block: the old one if a block fits, else the grown one. */
  ghost function Supply(bs: seq<Block>, to: int, need: int): seq<Block> {
    if SomeFit(bs, need) then bs else Extended(bs, to, Max(need, CHUNKSIZE))
  }

  /** After growing only the last block fits. */
  lemma SupplyFit(bs: seq<Block>, from: int, to: int, need: int) returns (k: nat)
    requires Tiles(bs, from, to) && !SomeFit(bs, need)
    ensures var cs := Extended(bs, to, Max(need, CHUNKSIZE));
      k < |cs| && cs[k].addr == GrowStart(bs, to) && Smallest(cs, cs[k], need)
  {
    hide Tiles;
    var n := Max(need, CHUNKSIZE);
    ExtendedLast(bs, from, to, n);
    k := |Kept(bs)|;
    var cs := Extended(bs, to, n);
    assert forall x :: x in Kept(bs) ==> x in bs;
  }

  lemma ChunkWords(need: int)
    requires need % 8 == 0
    ensures var n := Max(need, CHUNKSIZE); (n / 4 + 1) / 2 * 8 == n && n / 4 >= 1024
  {
    var q := need / 8;
    assert need == 8 * q;
  }

  lemma GrownFit(bs: seq<Block>, from: int, to: int, need: int) returns (k: nat)
    requires WellFormed(bs, from, to, LEAST) && !SomeFit(bs, need)
    ensures var cs := Extended(bs, to, Max(need, CHUNKSIZE));
      k < |cs| && cs[k].addr == GrowStart(bs, to) && Smallest(cs, cs[k], need) && Coalesced(cs)
  {
    hide Tiles, Coalesced, Extended, Smallest, SomeFit;
    k := SupplyFit(bs, from, to, need);
    ExtendedCoalesced(bs, from, to, Max(need, CHUNKSIZE));
  }

  // ---------- release ----------

  /** The freed block merges the same way whether it is still marked as allocated or not. */
  lemma ReleaseFreed(bs: seq<Block>, k: nat)
    requires k < |bs|
    ensures var cs := Splice(bs, k, k + 1, [Block(bs[k].addr, bs[k].size, true)]);
      |cs| == |bs| && cs[k] == Block(bs[k].addr, bs[k].size, true) && Release(cs, k) == Release(bs, k)
  {
    var cs := Splice(bs, k, k + 1, [Block(bs[k].addr, bs[k].size, true)]);
    assert forall i :: 0 <= i < |bs| && i != k ==> cs[i] == bs[i];
    assert Merged(cs, k) == Merged(bs, k) && First(cs, k) == First(bs, k) && Past(cs, k) == Past(bs, k);
    assert cs[..First(bs, k)] == bs[..First(bs, k)] && cs[Past(bs, k)..] == bs[Past(bs, k)..];
  }

  lemma WellFormedTiles(bs: seq<Block>, from: int, to: int, least: int)
    requires WellFormed(bs, from, to, least)
    ensures Tiles(bs, from, to) && Coalesced(bs)
  {
  }

  /** Two blocks do not start at the same address. */
  lemma OneAtAddress(bs: seq<Block>, from: int, to: int, b: Block)
    requires Tiles(bs, from, to) && b in bs
    ensures bs[IndexOf(bs, b.addr)] == b
  {
    hide Tiles;
    var c := bs[IndexOf(bs, b.addr)];
    BlocksApart(bs, b, c, from, to);
    BlocksApart(bs, c, b, from, to);
  }
}
