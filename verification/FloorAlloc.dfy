/** `mm_seg_ref_97.c`: a best-fit allocator over descending lists that joins and splits blocks outside the lists. */
module FloorAlloc {
  import opened Common
  import opened Memlib
  import opened Blocks
  import opened Fits
  import opened Tags
  import opened SegLists
  import opened SegHeap
  import opened SegMoves
  import opened FloorOps
  import opened RoundUp

  const BASE := 216
  /** The payload, in words, by which the heap grows at least. */
  const CHUNK := 1024

  // ---------- tags in words ----------

  /** The size word of a block with a payload of `words` words. */
  function SizeWord(words: int): int {
    8 * words
  }

  lemma WordTag(b: Block, words: int)
    requires b.size == 4 * words + 8
    ensures TagWord(Floor, b) == SizeWord(words) + (if b.free then 0 else 1)
  {
  }

  /** What header, footer and neighbours of block `k` say. */
  lemma AroundWords(m: seq<int>, bs: seq<Block>, k: nat)
    requires Layout(Floor, m, bs) && k < |bs|
    ensures var b, hp := bs[k], bs[k].addr - 4;
      && 212 <= hp && LEAST <= b.size && b.size % 8 == 0 && Boundary(hp + 4) && Boundary(hp + 4 + b.size)
      && hp + b.size + 8 <= |m| && 4 * (m[hp] / 8) + 8 == b.size
    ensures var hp := bs[k].addr - 4;
      var prev := hp - 4 * (m[hp - 4] / 8 + 2);
      && 204 <= prev && prev + 8 <= hp && Boundary(prev + 4) && (m[prev] % 2 == 0 <==> k > 0 && bs[k - 1].free)
      && (k > 0 ==> prev == bs[k - 1].addr - 4 && 4 * (m[prev] / 8) + 8 == bs[k - 1].size)
    ensures var next := bs[k].addr - 4 + bs[k].size;
      && (m[next] % 2 == 0 <==> k + 1 < |bs| && bs[k + 1].free)
      && (k + 1 < |bs| ==> next == bs[k + 1].addr - 4 && 4 * (m[next] / 8) + 8 == bs[k + 1].size && next + bs[k + 1].size + 8 <= |m|)
  {
    hide TagWord;
    TagsAt(Floor, m, bs, k);
    if k > 0 {
      TagsAt(Floor, m, bs, k - 1);
    } else {
      assert bs[k].addr == Base(Floor);
    }
    if k + 1 < |bs| {
      TagsAt(Floor, m, bs, k + 1);
    }
  }

  /** Header, then the footer that the header points to. */
  method PutSize(h: Memory, hp: int, words: int, taken: bool)
    requires h.Valid() && 0 <= hp && 0 <= words && hp + 4 * words + 8 <= h.brk && Boundary(hp + 4) && Boundary(hp + 4 * words + 12)
    modifies h.cells
    ensures var w := SizeWord(words) + (if taken then 1 else 0);
      h.Mem() == old(h.Mem())[hp := w][hp + 4 * words + 4 := w]
  {
    hide Aligned;
    var w := SizeWord(words) + (if taken then 1 else 0);
    h.Put(hp, w);
    h.Put(hp + 4 * (h.Get(hp) / 8) + 4, w);
  }

  // ---------- coalesce ----------

  /** The free neighbours leave their lists; the result is the stretch that becomes one block. */
  method RemoveSides(h: Memory, hp: int, ghost k: nat, ghost bs: seq<Block>, ghost ls: seq<seq<Block>>)
    returns (first: int, last: int, newSize: int, ghost ls': seq<seq<Block>>)
    requires h.Valid() && k < |bs| && bs[k].free && bs[k].addr == hp + 4 && SegInv(Floor, h.Mem(), bs, ls, {bs[k]})
    modifies h.cells
    ensures SegInv(Floor, h.Mem(), bs, ls', Freed(bs[First(bs, k)..Past(bs, k)]))
    ensures Preserved(old(h.Mem()), h.Mem(), bs, bs, {})
    ensures 4 * newSize + 8 == Merged(bs, k).size && first == bs[First(bs, k)].addr - 4 && last == bs[Past(bs, k) - 1].addr - 4
  {
    hide SegInv, Preserved, Layout, Tiles, Freed, Aligned;
    ghost var m, out := h.Mem(), {bs[k]};
    InvLayout(Floor, m, bs, ls, out);
    Joined(Floor, m, bs, k);
    AroundWords(m, bs, k);
    PreservedRefl(Floor, m, bs, {});
    ls' := ls;
    first, last := hp, hp;
    var prev, next := hp - 4 * (h.Get(hp - 4) / 8 + 2), hp + 4 * (h.Get(hp) / 8) + 8;
    var prevFree, nextFree := h.Get(prev) % 2 == 0, h.Get(next) % 2 == 0;
    newSize := h.Get(hp) / 8;
    if prevFree {
      newSize := newSize + (h.Get(prev) / 8 + 2);
      first := prev;
    }
    if nextFree {
      newSize := newSize + (h.Get(next) / 8 + 2);
      last := next;
    }
    if prevFree {
      ls' := RemoveBlock(h, prev, k - 1, bs, ls', out);
      out := out + {bs[k - 1]};
    }
    ghost var m1 := h.Mem();
    if nextFree {
      ls' := RemoveBlock(h, next, k + 1, bs, ls', out);
      out := out + {bs[k + 1]};
      PreservedTrans(m, m1, h.Mem(), bs, bs, bs, {});
    }
    assert out == Freed(bs[First(bs, k)..Past(bs, k)]);
  }

  /** `coalesce`: a free block outside the lists merges with its free neighbours and stays outside. */
  method Coalesce(h: Memory, hp: int, ghost k: nat, ghost bs: seq<Block>, ghost ls: seq<seq<Block>>)
    returns (r: int, ghost ls': seq<seq<Block>>)
    requires h.Valid() && k < |bs| && bs[k].free && bs[k].addr == hp + 4 && SegInv(Floor, h.Mem(), bs, ls, {bs[k]})
    modifies h.cells
    ensures SegInv(Floor, h.Mem(), Release(bs, k), ls', {Merged(bs, k)}) && r == Merged(bs, k).addr - 4
    ensures Preserved(old(h.Mem()), h.Mem(), bs, Release(bs, k), {})
  {
    hide SegInv, Preserved, Layout, Tiles, Freed, Merged, TagWord, SizeWord, Release, Boundary;
    ghost var m := h.Mem();
    var first, last, newSize;
    first, last, newSize, ls' := RemoveSides(h, hp, k, bs, ls);
    ghost var m1 := h.Mem();
    InvLayout(Floor, m1, bs, ls', Freed(bs[First(bs, k)..Past(bs, k)]));
    MergedEnds(m1, bs, k);
    r := first;
    if first == hp && last == hp {
      NothingJoined(m1, bs, k);
      AlreadyMerged(bs, k);
    } else {
      PutJoined(h, first, last, newSize, k, bs, ls');
      PreservedTrans(m, m1, h.Mem(), bs, bs, Release(bs, k), {});
    }
  }

  /** The tags of the merged block; its free parts have left their lists. */
  method PutJoined(h: Memory, first: int, last: int, newSize: int, ghost k: nat, ghost bs: seq<Block>, ghost ls: seq<seq<Block>>)
    requires h.Valid() && k < |bs| && bs[k].free && SegInv(Floor, h.Mem(), bs, ls, Freed(bs[First(bs, k)..Past(bs, k)]))
    requires 4 * newSize + 8 == Merged(bs, k).size && !(first == bs[k].addr - 4 == last)
    requires first == bs[First(bs, k)].addr - 4 && last == bs[Past(bs, k) - 1].addr - 4
    modifies h.cells
    ensures SegInv(Floor, h.Mem(), Release(bs, k), ls, {Merged(bs, k)})
    ensures Preserved(old(h.Mem()), h.Mem(), bs, Release(bs, k), {})
  {
    hide SegInv, Preserved, Layout, Tiles, Freed, Merged, TagWord, SizeWord, Aligned;
    ghost var m, lo, hi, b := h.Mem(), First(bs, k), Past(bs, k), Merged(bs, k);
    InvLayout(Floor, m, bs, ls, Freed(bs[lo..hi]));
    Joined(Floor, m, bs, k);
    MergedEnds(m, bs, k);
    WordTag(b, newSize);
    Retagged(Floor, m, bs, ls, lo, hi, b, {});
    PutEnds(h, first, last, newSize, b.addr + b.size - 8);
  }

  /** The header of the first and the footer of the last block. */
  method PutEnds(h: Memory, first: int, last: int, newSize: int, ghost footer: int)
    requires h.Valid() && 0 <= first < last && last + 8 <= footer && footer + 4 <= h.brk
    requires Aligned(first) && Aligned(last) && Aligned(footer)
    requires last + 4 * (h.Mem()[last] / 8) + 4 == footer
    modifies h.cells
    ensures h.Mem() == old(h.Mem())[first := SizeWord(newSize)][footer := SizeWord(newSize)]
  {
    hide Aligned;
    h.Put(first, SizeWord(newSize));
    h.Put(last + 4 * (h.Get(last) / 8) + 4, SizeWord(newSize));
  }

  lemma MergedEnds(m: seq<int>, bs: seq<Block>, k: nat)
    requires Layout(Floor, m, bs) && k < |bs| && bs[k].free
    ensures var b, lo, hi := Merged(bs, k), First(bs, k), Past(bs, k);
      && b.free && LEAST <= b.size && b.addr == bs[lo].addr && 212 <= bs[lo].addr - 4 && lo < hi <= |bs|
      && b.addr + b.size == bs[hi - 1].addr + bs[hi - 1].size && b.addr + b.size + 4 <= |m| && bs[lo].addr <= bs[hi - 1].addr
      && LEAST <= bs[hi - 1].size && 4 * (m[bs[hi - 1].addr - 4] / 8) + 8 == bs[hi - 1].size
      && (lo < hi - 1 ==> bs[lo].addr < bs[hi - 1].addr)
      && Boundary(b.addr) && Boundary(bs[hi - 1].addr) && Boundary(b.addr + b.size)
  {
    hide TagWord, Layout;
    AroundWords(m, bs, k);
    if First(bs, k) < k {
      AroundWords(m, bs, k - 1);
    }
    if k + 1 < Past(bs, k) {
      AroundWords(m, bs, k + 1);
    }
  }

  lemma NothingJoined(m: seq<int>, bs: seq<Block>, k: nat)
    requires Layout(Floor, m, bs) && k < |bs| && bs[k].free
    requires bs[First(bs, k)].addr == bs[k].addr == bs[Past(bs, k) - 1].addr
    ensures !(k > 0 && bs[k - 1].free) && !(k + 1 < |bs| && bs[k + 1].free)
    ensures Freed(bs[First(bs, k)..Past(bs, k)]) == {bs[k]} && Merged(bs, k) == bs[k]
  {
    hide TagWord, Layout;
    AroundWords(m, bs, k);
    assert bs[k..k + 1] == [bs[k]];
  }

  // ---------- extend_heap ----------

  /** `EVENIZE` */
  function Even(words: int): int {
    (words + 1) / 2 * 2
  }

  /** `extend_heap`: a new free block outside the lists, not joined with the block before it. */
  method ExtendHeap(h: Memory, words: int, ghost bs: seq<Block>, ghost ls: seq<seq<Block>>) returns (hp: int, ghost b: Block)
    requires h.Valid() && SegInv(Floor, h.Mem(), bs, ls, {}) && 2 <= words
    modifies h`brk, h.cells
    ensures h.Valid() && b == Block(old(End(Floor, h.Mem())), 4 * Even(words) + 8, true)
    ensures hp == NULL <==> old(h.brk) + b.size > h.cells.Length
    ensures hp == NULL ==> h.brk == old(h.brk) && h.Mem() == old(h.Mem())
    ensures hp != NULL ==>
      && h.brk == old(h.brk) + b.size && hp == b.addr - 4 && SegInv(Floor, h.Mem(), bs + [b], ls, {b})
      && Preserved(old(h.Mem()), h.Mem(), bs, bs + [b], {})
  {
    hide SegInv, Preserved, Tiles, Layout, TagWord;
    ghost var m := h.Mem();
    InvLayout(Floor, m, bs, ls, {});
    HeapStart(m, bs, ls);
    var wordsExtend := Even(words);
    var wordsExtendTot := wordsExtend + 2;
    b := Block(|m| - 4, 4 * wordsExtend + 8, true);
    EvenBytes(words);
    StartAligned(Floor, m, bs, |bs|);
    MultipleSum(b.addr, b.size);
    WordTag(b, wordsExtend);
    var p := h.Sbrk(wordsExtendTot * 4);
    if p == FAILED {
      return NULL, b;
    }
    hp := p - 8;
    PutSize(h, hp, wordsExtend, false);
    var endPointer := hp + 4 * wordsExtendTot;
    PutSize(h, endPointer, 0, true);
    Grown(Floor, m, h.Mem(), bs, ls, b.size);
  }

  lemma EvenBytes(words: int)
    ensures (4 * Even(words) + 8) % 8 == 0 && Even(words) % 2 == 0 && words <= Even(words) <= words + 1
  {
    var q := (words + 1) / 2;
    assert 4 * Even(words) + 8 == 8 * (q + 1);
    Eights(q + 1);
  }

  lemma HeapStart(m: seq<int>, bs: seq<Block>, ls: seq<seq<Block>>)
    requires SegInv(Floor, m, bs, ls, {})
    ensures BASE + 4 <= |m|
  {
  }

  // ---------- alloc_free_block ----------

  /** The four tags of a split, in the order of `alloc_free_block`. */
  lemma SplitOrder(m: seq<int>, x: Block, y: Block)
    requires 4 <= x.addr && 16 <= x.size && x.addr + x.size == y.addr && 16 <= y.size && y.addr + y.size <= |m|
    ensures var tx, ty := TagWord(Floor, x), TagWord(Floor, y);
      m[y.addr - 4 := ty][y.addr + y.size - 8 := ty][x.addr - 4 := tx][x.addr + x.size - 8 := tx] == SplitTags(Floor, m, x, y)
  {
    hide TagWord;
  }

  lemma SplitInv(m: seq<int>, bs: seq<Block>, ls: seq<seq<Block>>, k: nat, x: Block, y: Block)
    requires k < |bs| && bs[k].free && SegInv(Floor, m, bs, ls, {bs[k]}) && !x.free && y.free
    requires x.addr == bs[k].addr && y.addr == x.addr + x.size && x.size + y.size == bs[k].size
    requires x.size >= LEAST && y.size >= LEAST && x.size % 8 == 0
    ensures BASE <= x.addr && y.addr + y.size <= |m| && y.size % 8 == 0
    ensures Boundary(x.addr) && Boundary(y.addr) && Boundary(y.addr + y.size)
    ensures SegInv(Floor, SplitTags(Floor, m, x, y), Splice(bs, k, k + 1, [x, y]), ls, {y})
    ensures Preserved(m, SplitTags(Floor, m, x, y), bs, Splice(bs, k, k + 1, [x, y]), {})
  {
    hide SegInv, Preserved, Layout, Tiles, OnlyRegion, Tagged, TagWord, SplitTags;
    InvLayout(Floor, m, bs, ls, {bs[k]});
    SplitWords(Floor, m, bs, k, x, y);
    assert Freed([x, y]) == {y};
    assert bs[k..k + 1] == [bs[k]];
    SpliceInv(Floor, m, SplitTags(Floor, m, x, y), bs, ls, k, k + 1, [x, y], {});
  }

  lemma WholeInv(m: seq<int>, bs: seq<Block>, ls: seq<seq<Block>>, k: nat)
    requires k < |bs| && bs[k].free && SegInv(Floor, m, bs, ls, {bs[k]})
    ensures BASE <= bs[k].addr && bs[k].addr + bs[k].size <= |m| && bs[k].size >= LEAST
    ensures Boundary(bs[k].addr) && Boundary(bs[k].addr + bs[k].size)
    ensures var u := Block(bs[k].addr, bs[k].size, false);
      var m' := m[u.addr - 4 := TagWord(Floor, u)][u.addr + u.size - 8 := TagWord(Floor, u)];
      SegInv(Floor, m', Splice(bs, k, k + 1, [u]), ls, {}) && Preserved(m, m', bs, Splice(bs, k, k + 1, [u]), {})
  {
    hide SegInv, Preserved, Layout, Tiles, TagWord;
    InvLayout(Floor, m, bs, ls, {bs[k]});
    WholeWords(Floor, m, bs, k, false);
    assert bs[k..k + 1] == [bs[k]];
    Retagged(Floor, m, bs, ls, k, k + 1, Block(bs[k].addr, bs[k].size, false), {});
  }

  /** After a split the rest has no free neighbour. */
  lemma RestAlone(bs: seq<Block>, k: nat, x: Block, y: Block)
    requires k < |bs| && !x.free && y.free && !(k + 1 < |bs| && bs[k + 1].free)
    ensures var cs := Splice(bs, k, k + 1, [x, y]);
      k + 1 < |cs| && cs[k + 1] == y && Release(cs, k + 1) == cs && Merged(cs, k + 1) == y
  {
    var cs := Splice(bs, k, k + 1, [x, y]);
    assert cs[k] == x && cs[k + 1] == y && (k + 2 < |cs| ==> cs[k + 2] == bs[k + 1]);
    AlreadyMerged(cs, k + 1);
  }

  /** The split of `alloc_free_block`. */
  method SplitBlock(h: Memory, hp: int, words: int, rest: int, ghost k: nat, ghost bs: seq<Block>, ghost ls: seq<seq<Block>>)
    returns (ghost ls': seq<seq<Block>>)
    requires h.Valid() && k < |bs| && SegInv(Floor, h.Mem(), bs, ls, {bs[k]}) && !(k + 1 < |bs| && bs[k + 1].free)
    requires bs[k].free && bs[k].addr == hp + 4 && bs[k].size == 4 * (words + 2 + rest) + 8 && 2 <= words && 2 <= rest && words % 2 == 0
    modifies h.cells
    ensures SegInv(Floor, h.Mem(), Place(bs, k, 4 * words + 8, true), ls', {})
    ensures Preserved(old(h.Mem()), h.Mem(), bs, Place(bs, k, 4 * words + 8, true), {})
  {
    hide SegInv, Preserved, Tiles, Layout, TagWord, SplitTags, SizeWord, Release, Merged;
    ghost var m, cs := h.Mem(), Place(bs, k, 4 * words + 8, true);
    ghost var x, y := Block(hp + 4, 4 * words + 8, false), Block(hp + 4 + 4 * words + 8, 4 * rest + 8, true);
    EvenWords(words);
    SplitInv(m, bs, ls, k, x, y);
    SplitOrder(m, x, y);
    RestAlone(bs, k, x, y);
    WordTag(x, words);
    WordTag(y, rest);
    var newBlock := hp + 4 * (words + 2);
    PutSize(h, newBlock, rest, false);
    PutSize(h, hp, words, true);
    ghost var m1 := h.Mem();
    assert cs == Splice(bs, k, k + 1, [x, y]);
    newBlock, ls' := Coalesce(h, newBlock, k + 1, cs, ls);
    ghost var m2 := h.Mem();
    ls' := PlaceBlockIntoList(h, newBlock, y, cs, ls');
    PreservedTrans(m, m1, m2, bs, cs, cs, {});
    PreservedTrans(m, m2, h.Mem(), bs, cs, cs, {});
  }

  lemma EvenWords(words: int)
    requires words % 2 == 0
    ensures (4 * words + 8) % 8 == 0
  {
    var q := words / 2;
    assert 4 * words + 8 == 8 * (q + 1);
    Eights(q + 1);
  }

  /** `alloc_free_block`: allocate in a free block outside the lists. */
  method AllocFreeBlock(h: Memory, hp: int, words: int, ghost k: nat, ghost bs: seq<Block>, ghost ls: seq<seq<Block>>)
    returns (ghost ls': seq<seq<Block>>)
    requires h.Valid() && k < |bs| && SegInv(Floor, h.Mem(), bs, ls, {bs[k]}) && !(k + 1 < |bs| && bs[k + 1].free)
    requires bs[k].free && bs[k].addr == hp + 4 && 4 * words + 8 <= bs[k].size && 2 <= words && words % 2 == 0
    modifies h.cells
    ensures SegInv(Floor, h.Mem(), Place(bs, k, 4 * words + 8, true), ls', {})
    ensures Preserved(old(h.Mem()), h.Mem(), bs, Place(bs, k, 4 * words + 8, true), {})
  {
    hide SegInv, Preserved, Tiles, Layout, TagWord, SizeWord, Aligned;
    ghost var m := h.Mem();
    InvLayout(Floor, m, bs, ls, {bs[k]});
    AroundWords(m, bs, k);
    WholeInv(m, bs, ls, k);
    ls' := ls;
    var bpSize := h.Get(hp) / 8;
    var neededSize := words;
    var newBlockTotSize := bpSize + 2 - (words + 2);
    var newBlockSize := newBlockTotSize - 2;
    WholeEven(bs[k], words, newBlockTotSize);
    WordTag(Block(hp + 4, bs[k].size, false), bpSize);
    if newBlockSize > 0 {
      ls' := SplitBlock(h, hp, words, newBlockSize, k, bs, ls);
    } else if newBlockSize == 0 {
      neededSize := neededSize + 2;
      PutSize(h, hp, neededSize, true);
    } else {
      PutSize(h, hp, neededSize, true);
    }
  }

  lemma WholeEven(b: Block, words: int, rest: int)
    requires b.size % 8 == 0 && words % 2 == 0 && b.size == 4 * (words + rest) + 8
    ensures rest % 2 == 0
  {
  }

  // ---------- malloc and free ----------

  /** The payload, in words, that `mm_malloc` looks for. */
  function Words(size: int): int {
    Masked((if 0 < size <= 4096 then Pow2(CeilLog(size)) else size) + 7) % TWO32 / 4
  }

  function Need(size: int): int {
    4 * Words(size) + 8
  }

  ghost predicate IsPow2(r: int) {
    exists c: nat :: r == Pow2(c)
  }

  /** Requests up to 4096 bytes are served as if they were for the next power of two. */
  ghost predicate Rounded(size: int, r: int) {
    if size <= 4096 then IsPow2(r) && size <= r < 2 * size else r == size
  }

  /** There is only one such power. */
  lemma RoundedOnce(size: int, r: int, s: int)
    requires Rounded(size, r) && Rounded(size, s)
    ensures r == s
  {
    if size <= 4096 {
      var c: nat :| r == Pow2(c);
      var e: nat :| s == Pow2(e);
      if c < e {
        Pow2Monotone(c, e - 1);
      } else if e < c {
        Pow2Monotone(e, c - 1);
      }
    }
  }

  /** The block has room for header, footer and the rounded payload, and no more than that takes, unless the 32-bit size
      wraps around. */
  lemma NeedFits(size: int)
    requires 0 < size < TWO32
    ensures Words(size) % 2 == 0 && Words(size) >= 0 && Need(size) % 8 == 0
    ensures size + 8 <= Need(size) < TWO32 <==> size <= LARGEST
    ensures size <= LARGEST ==> exists r :: Rounded(size, r) && LeastSize(Need(size), r, 16)
  {
    var r := if size <= 4096 then Pow2(CeilLog(size)) else size;
    if size <= 4096 {
      SmallClass(size);
    }
    AlignedUp(r);
    assert Rounded(size, r);
  }

  /** No smaller block would do. */
  lemma NeedLeast(size: int, r: int, n: int)
    requires 0 < size <= LARGEST && Rounded(size, r) && n % 8 == 0 && n >= 16 && n >= r + 8
    ensures Need(size) <= n
  {
    hide Rounded, Words;
    NeedFits(size);
    var s :| Rounded(size, s) && LeastSize(Need(size), s, 16);
    RoundedOnce(size, r, s);
    LeastOfAll(Need(size), s, 16, n);
  }

  /** Rounding to a multiple of eight, in words. */
  lemma AlignedUp(s: int)
    requires 0 < s < TWO32
    ensures var w := Masked(s + 7) % TWO32 / 4;
      && w % 2 == 0 && w >= 0 && (4 * w + 8) % 8 == 0 && 4 * w < s + 8
      && (s <= 4 * w && 4 * w + 8 < TWO32 <==> s <= LARGEST)
  {
    var q := (s + 7) / 8;
    var r := if 8 * q < TWO32 then q else q - TWO32 / 8;
    MaskedIs(s + 7, q);
    ModIs(8 * q, 8 * r);
    assert 8 * r / 4 == 2 * r;
    EvenWords(2 * r);
  }

  lemma MaskedIs(n: int, q: int)
    requires q == n / 8
    ensures Masked(n) == 8 * q
  {
  }

  lemma ModIs(a: int, r: int)
    requires 0 <= r < TWO32 && (a == r || a == r + TWO32)
    ensures a % TWO32 == r
  {
  }

  lemma SmallClass(size: int)
    requires 0 < size <= 4096
    ensures size <= Pow2(CeilLog(size)) <= 4096 && (size > 1 ==> Pow2(CeilLog(size)) < 2 * size)
  {
    assert Pow2(8) == 256 && Pow2(12) == 16 * Pow2(8);
    CeilLogBelow(size, 12);
    Pow2Monotone(CeilLog(size), 12);
    if CeilLog(size) > 0 {
      assert Pow2(CeilLog(size)) == 2 * Pow2(CeilLog(size) - 1);
    }
  }

  /** The block by which the heap grows. */
  function NewBlock(to: int, need: int): Block {
    Block(to, Max(need, 4 * CHUNK + 8), true)
  }

  /** The partition in which `mm_malloc` places a block. */
  ghost function Base97(bs: seq<Block>, to: int, need: int): seq<Block> {
    if SomeFit(bs, need) then bs else bs + [NewBlock(to, need)]
  }

  /** Growing and placing at once keeps free blocks apart although the new block is not joined with the last one. */
  lemma GrownCoalesced(bs: seq<Block>, b: Block, need: int)
    requires Coalesced(bs) && b.free
    ensures Coalesced(Place(bs + [b], |bs|, need, true))
  {
    var mid := Split(b, need, true);
    CoalescedSplice(bs, |bs|, |bs|, mid);
    assert (bs + [b])[..|bs|] == bs && (bs + [b])[|bs| + 1..] == [] && bs[..|bs|] == bs && bs[|bs|..] == [];
  }

  /** A heap between calls. */
  ghost predicate Settled(m: seq<int>, bs: seq<Block>, ls: seq<seq<Block>>) {
    SegInv(Floor, m, bs, ls, {}) && Coalesced(bs)
  }

  lemma SettledWellFormed(m: seq<int>, bs: seq<Block>, ls: seq<seq<Block>>)
    requires Settled(m, bs, ls)
    ensures BASE + 4 <= |m| && WellFormed(bs, BASE, |m| - 4, LEAST) && SegInv(Floor, m, bs, ls, {}) && Layout(Floor, m, bs)
    ensures Tiles(bs, BASE, |m| - 4) && Coalesced(bs)
  {
    forall b | b in bs ensures b.size >= LEAST {
      assert Tagged(Floor, m, b);
    }
  }

  lemma FitIndex(bs: seq<Block>, b: Block, need: int) returns (k: nat)
    requires Smallest(bs, b, need) && Coalesced(bs)
    ensures k < |bs| && bs[k] == b && b.free && b.size >= need && !(k + 1 < |bs| && bs[k + 1].free)
  {
    k :| 0 <= k < |bs| && bs[k] == b;
  }

  /** The allocated block is new, whether it comes from a free block or from a larger heap. */
  lemma PlacedUnused(bs: seq<Block>, k: nat, need: int, from: int, to: int, b: Block)
    requires Tiles(bs, from, to) && LEAST <= need && (if k < |bs| then bs[k].free && bs[k] == b && need <= b.size else b.addr == to)
    ensures Placed(b, need, true) !in bs
  {
    if k < |bs| {
      PlacedNew(bs, k, need, true, from, to);
    } else if Placed(b, need, true) in bs {
      BlocksApart(bs, Placed(b, need, true), Placed(b, need, true), from, to);
      assert false;
    }
  }

  lemma PlacedIn(bs: seq<Block>, k: nat, need: int)
    requires k < |bs|
    ensures Placed(bs[k], need, true) in Place(bs, k, need, true)
  {
    assert Split(bs[k], need, true)[0] == Placed(bs[k], need, true);
    SpliceMembers(bs, k, k + 1, Split(bs[k], need, true), Placed(bs[k], need, true));
  }

  lemma Unlisted(m: seq<int>, bs: seq<Block>, ls: seq<seq<Block>>, k: nat)
    requires k < |bs| && !bs[k].free && SegInv(Floor, m, bs, ls, {})
    ensures BASE <= bs[k].addr && bs[k].addr + bs[k].size <= |m| && bs[k].size >= LEAST && bs[k].size % 8 == 0
    ensures var b := Block(bs[k].addr, bs[k].size, true);
      var m' := m[b.addr - 4 := TagWord(Floor, b)][b.addr + b.size - 8 := TagWord(Floor, b)];
      && SegInv(Floor, m', Splice(bs, k, k + 1, [b]), ls, {b}) && Preserved(m, m', bs, Splice(bs, k, k + 1, [b]), {bs[k]})
  {
    hide SegInv, Preserved, Layout, Tiles, TagWord;
    InvLayout(Floor, m, bs, ls, {});
    WholeWords(Floor, m, bs, k, true);
    assert bs[k..k + 1] == [bs[k]];
    Retagged(Floor, m, bs, ls, k, k + 1, Block(bs[k].addr, bs[k].size, true), {bs[k]});
  }

  /** `mm_free` on the block with header `hp`. */
  method FreeBlock(h: Memory, hp: int, ghost k: nat, ghost bs: seq<Block>, ghost ls: seq<seq<Block>>)
    returns (ghost ls': seq<seq<Block>>)
    requires h.Valid() && SegInv(Floor, h.Mem(), bs, ls, {}) && k < |bs| && !bs[k].free && bs[k].addr == hp + 4
    modifies h.cells
    ensures SegInv(Floor, h.Mem(), Release(bs, k), ls', {})
    ensures Preserved(old(h.Mem()), h.Mem(), bs, Release(bs, k), {bs[k]})
  {
    hide SegInv, Preserved, Tiles, Layout, TagWord, SizeWord, Release, Merged, Aligned;
    ghost var m := h.Mem();
    InvLayout(Floor, m, bs, ls, {});
    AroundWords(m, bs, k);
    Unlisted(m, bs, ls, k);
    ReleaseFreed(bs, k);
    var size := h.Get(hp) / 8;
    ghost var b, bs1 := Block(hp + 4, bs[k].size, true), Splice(bs, k, k + 1, [Block(hp + 4, bs[k].size, true)]);
    WordTag(b, size);
    PutSize(h, hp, size, false);
    ghost var m1 := h.Mem();
    var r;
    r, ls' := Coalesce(h, hp, k, bs1, ls);
    ghost var m2, c := h.Mem(), Merged(bs1, k);
    MergedIn(bs1, k);
    ls' := PlaceBlockIntoList(h, r, c, Release(bs, k), ls');
    PreservedTrans(m1, m2, h.Mem(), bs1, Release(bs, k), Release(bs, k), {});
    PreservedMore(m1, h.Mem(), bs1, Release(bs, k), {bs[k]});
    PreservedTrans(m, m1, h.Mem(), bs, bs1, Release(bs, k), {bs[k]});
  }

  lemma FreeSettled(m: seq<int>, bs: seq<Block>, ls: seq<seq<Block>>, k: nat)
    requires WellFormed(bs, BASE, |m| - 4, LEAST) && k < |bs| && !bs[k].free && SegInv(Floor, m, Release(bs, k), ls, {})
    ensures Settled(m, Release(bs, k), ls)
  {
    hide SegInv;
    ReleaseWellFormed(bs, k, BASE, |m| - 4, LEAST);
  }

  /** The heap that `mm_init` has written before it first grows. */
  lemma EmptyHeap(m0: seq<int>, m: seq<int>)
    requires |m0| == LISTS_END && forall j :: 0 <= j < 51 ==> m0[4 * j] == NULL
    requires |m| == BASE + 4 && m[..LISTS_END] == m0 && m[204] == 1 && m[208] == 1 && m[212] == 1
    ensures SegInv(Floor, m, [], seq(51, c => []), {})
  {
    var ls: seq<seq<Block>> := seq(51, c => []);
    forall c | 0 <= c < 51 ensures Chain(Floor, m, 4 * c, ls[c]) {
      assert m[..LISTS_END][4 * c] == m0[4 * c];
    }
  }

  /** `mm_init` clears its list heads when the break is at 200: all of them lie below it but the last one. */
  lemma HeadsBelow(h: Memory, i: nat)
    requires h.Valid() && h.brk == 200 && i < Lists(Floor)
    ensures 4 * i + 4 <= h.brk <==> i != Lists(Floor) - 1
  {
  }

  /** The loop of `mm_init`. */
  method ClearLists(h: Memory)
    requires h.Valid() && h.brk == LISTS_END
    modifies h.cells
    ensures forall j :: 0 <= j < 51 ==> h.Mem()[4 * j] == NULL
  {
    var i := 0;
    while i <= 50
      invariant 0 <= i <= 51
      invariant forall j :: 0 <= j < i ==> h.Mem()[4 * j] == NULL
    {
      h.Put(4 * i, NULL);
      i := i + 1;
    }
  }

  /** Prologue and epilogue. */
  method PutWalls(h: Memory, p: int)
    requires h.Valid() && p == LISTS_END && h.brk == BASE + 4
    modifies h.cells
    ensures h.Mem()[..LISTS_END] == old(h.Mem()[..LISTS_END]) && h.Mem()[204] == 1 && h.Mem()[208] == 1 && h.Mem()[212] == 1
  {
    PutSize(h, p, 0, true);
    PutSize(h, p + 8, 0, true);
  }

  /** The last steps of `mm_init`: the first free block and its place in a list. */
  method FirstBlock(h: Memory, ghost ls: seq<seq<Block>>) returns (r: int, ghost b: Block, ghost ls': seq<seq<Block>>)
    requires h.Valid() && h.brk == BASE + 4 && SegInv(Floor, h.Mem(), [], ls, {})
    modifies h`brk, h.cells
    ensures h.Valid() && b == Block(216, 4104, true) && (r == 0 || r == -1) && (r == 0 <==> 4324 <= h.cells.Length)
    ensures r == 0 ==> h.brk == 4324 && Settled(h.Mem(), [b], ls')
  {
    hide SegInv, Preserved, EntersList;
    ls' := ls;
    var newBlock;
    newBlock, b := ExtendHeap(h, CHUNK, [], ls);
    if newBlock == NULL {
      return -1, b, ls;
    }
    assert [] + [b] == [b];
    ls' := PlaceBlockIntoList(h, newBlock, b, [b], ls);
    return 0, b, ls';
  }

  /** The rounding at the start of `mm_malloc`. */
  method RequestWords(size: int) returns (rounded: int, words: int)
    requires 0 <= size < TWO32
    ensures (rounded == 0 <==> size == 0) && (size > 0 ==> words == Words(size))
  {
    hide Masked, Pow2, CeilLog;
    Pow2Positive(size);
    rounded := size;
    if size <= 4096 {
      rounded := RoundUpPower2(size);
    }
    words := Masked(rounded + 7) % TWO32 / 4;
  }

  /** `mm_malloc` when `find_free_block` has found block `k`. */
  method TakeFit(h: Memory, hp: int, words: int, ghost k: nat, ghost bs: seq<Block>, ghost ls: seq<seq<Block>>)
    returns (ghost ls': seq<seq<Block>>)
    requires h.Valid() && k < |bs| && SegInv(Floor, h.Mem(), bs, ls, {}) && Coalesced(bs)
    requires bs[k].free && bs[k].addr == hp + 4 && 4 * words + 8 <= bs[k].size && 2 <= words && words % 2 == 0
    modifies h.cells
    ensures hp > 0 && Settled(h.Mem(), Place(bs, k, 4 * words + 8, true), ls')
    ensures Preserved(old(h.Mem()), h.Mem(), bs, Place(bs, k, 4 * words + 8, true), {})
  {
    hide SegInv, Preserved, Tiles, Layout, Place, LeavesList, Boundary, TagWord;
    ghost var m := h.Mem();
    InvLayout(Floor, m, bs, ls, {});
    AroundWords(m, bs, k);
    ls' := RemoveBlock(h, hp, k, bs, ls, {});
    assert {} + {bs[k]} == {bs[k]};
    ghost var m1 := h.Mem();
    ls' := AllocFreeBlock(h, hp, words, k, bs, ls');
    PreservedTrans(m, m1, h.Mem(), bs, bs, Place(bs, k, 4 * words + 8, true), {});
    PlaceCoalesced(bs, k, 4 * words + 8, true);
  }

  /** `mm_malloc` when no block fits: the new block never enters a list. */
  method TakeNew(h: Memory, words: int, ghost bs: seq<Block>, ghost ls: seq<seq<Block>>)
    returns (hp: int, ghost b: Block, ghost ls': seq<seq<Block>>)
    requires h.Valid() && SegInv(Floor, h.Mem(), bs, ls, {}) && Coalesced(bs) && 2 <= words && words % 2 == 0
    modifies h`brk, h.cells
    ensures h.Valid() && b == NewBlock(old(h.brk) - 4, 4 * words + 8)
    ensures hp == NULL <==> old(h.brk) + b.size > h.cells.Length
    ensures hp == NULL ==> h.brk == old(h.brk) && h.Mem() == old(h.Mem()) && ls' == ls
    ensures hp != NULL ==>
      && hp > 0 && h.brk == old(h.brk) + b.size && hp == b.addr - 4
      && Settled(h.Mem(), Place(bs + [b], |bs|, 4 * words + 8, true), ls')
      && Preserved(old(h.Mem()), h.Mem(), bs, Place(bs + [b], |bs|, 4 * words + 8, true), {})
  {
    hide SegInv, Preserved, Tiles, Layout, Place, Even;
    ghost var m := h.Mem();
    HeapStart(m, bs, ls);
    var extendSize := if words > CHUNK then words else CHUNK;
    WordsEven(words);
    ls' := ls;
    hp, b := ExtendHeap(h, extendSize, bs, ls);
    if hp == NULL {
      return;
    }
    GrownCoalesced(bs, b, 4 * words + 8);
    ghost var m1 := h.Mem();
    ls' := AllocFreeBlock(h, hp, words, |bs|, bs + [b], ls);
    PreservedTrans(m, m1, h.Mem(), bs, bs + [b], Place(bs + [b], |bs|, 4 * words + 8, true), {});
  }

  class FloorAllocator {
    const heap: Memory
    /** The partition of the heap and the contents of the free lists. */
    ghost var blocks: seq<Block>
    ghost var lists: seq<seq<Block>>

    ghost predicate Valid()
      reads this, heap, heap.cells
    {
      heap.Valid() && Settled(heap.Mem(), blocks, lists)
    }

    constructor (maxHeap: nat)
      requires maxHeap <= INT_MAX
      ensures heap.Valid() && heap.brk == 0 && heap.cells.Length == maxHeap
      ensures fresh(heap) && fresh(heap.cells)
    {
      heap := new Memory(maxHeap);
      blocks, lists := [], [];
    }

    /** `mm_init` on an empty heap. */
    method Init() returns (r: int)
      requires heap.Valid() && heap.brk == 0
      modifies this, heap`brk, heap.cells
      ensures r == 0 || r == -1
      ensures r == 0 <==> heap.cells.Length >= 4324
      ensures r == 0 ==> Valid() && blocks == [Block(216, 4104, true)] && heap.brk == 4324
    {
      hide SegInv, Preserved, Boundary, EntersList;
      var p := heap.Sbrk(200);
      if p == FAILED {
        return -1;
      }
      p := heap.Sbrk(4);
      if p != FAILED {
        ClearLists(heap);
      }
      ghost var m0 := heap.Mem();
      p := heap.Sbrk(16);
      if p == FAILED {
        return -1;
      }
      PutWalls(heap, p);
      EmptyHeap(m0, heap.Mem());
      ghost var b;
      r, b, lists := FirstBlock(heap, seq(51, c => []));
      blocks := [b];
    }

    /** `mm_malloc`: a smallest sufficient block for the rounded size; if there is none, a new one. */
    method Malloc(size: int) returns (p: int, ghost k: nat)
      requires Valid() && 0 <= size <= LARGEST
      modifies this, heap`brk, heap.cells
      ensures Valid()
      ensures var full := old(heap.brk) + Max(Need(size), 4104) > heap.cells.Length;
        p == NULL <==> (size == 0 || (!old(SomeFit(blocks, Need(size))) && full))
      ensures p == NULL ==> blocks == old(blocks) && heap.Mem() == old(heap.Mem())
      ensures p != NULL ==>
        var need, base := Need(size), old(Base97(blocks, heap.brk - 4, Need(size)));
        && k < |base| && base[k].free && base[k].size >= need && blocks == Place(base, k, need, true)
        && p == base[k].addr && Placed(base[k], need, true) in blocks && Placed(base[k], need, true) !in old(blocks)
        && (if old(SomeFit(blocks, need)) then Smallest(old(blocks), base[k], need) && StopsAt(Floor, old(lists), base[k], need)
            else k == |old(blocks)|)
        && heap.brk == old(heap.brk) + (if old(SomeFit(blocks, need)) then 0 else Max(need, 4104))
        && Placed(base[k], need, true) == Block(p, if base[k].size < need + 16 then base[k].size else need, false)
      ensures size > 0 ==> exists r :: Rounded(size, r) && LeastSize(Need(size), r, 16)
      ensures Preserved(old(heap.Mem()), heap.Mem(), old(blocks), blocks, {})
    {
      hide SegInv, Preserved, SomeFit, Smallest, StopsAt, Coalesced, Tiles, Layout, Place, Placed, Settled, WellFormed, Words;
      ghost var m, bs, to := heap.Mem(), blocks, heap.brk - 4;
      k := 0;
      SettledWellFormed(m, bs, lists);
      PreservedRefl(Floor, m, bs, {});
      var rounded, words := RequestWords(size);
      if rounded == 0 {
        return NULL, k;
      }
      NeedFits(size);
      ghost var b;
      var hp;
      hp, b := FindFreeBlock(heap, words, bs, lists);
      if hp == NULL {
        hp, b, lists := TakeNew(heap, words, bs, lists);
        if hp == NULL {
          return NULL, k;
        }
        PlacedUnused(bs, |bs|, 4 * words + 8, BASE, to, b);
        k, blocks := |bs|, bs + [b];
      } else {
        k := FitIndex(bs, b, 4 * words + 8);
        PlacedUnused(bs, k, 4 * words + 8, BASE, to, b);
        lists := TakeFit(heap, hp, words, k, bs, lists);
      }
      PlacedIn(blocks, k, 4 * words + 8);
      PlacedLow(blocks[k], 4 * words + 8);
      blocks := Place(blocks, k, 4 * words + 8, true);
      return hp + 4, k;
    }

    /** `mm_free`: the block merges with its free neighbours. */
    method Free(ptr: int)
      requires Valid() && exists b :: b in blocks && b.addr == ptr && !b.free
      modifies this, heap.cells
      ensures Valid()
      ensures var k := old(IndexOf(blocks, ptr));
        && !old(blocks)[k].free && blocks == Release(old(blocks), k)
        && Preserved(old(heap.Mem()), heap.Mem(), old(blocks), blocks, {old(blocks)[k]})
    {
      hide SegInv, Preserved, Settled, WellFormed, Layout, Release, Tiles;
      ghost var m, bs, k := heap.Mem(), blocks, IndexOf(blocks, ptr);
      SettledWellFormed(m, bs, lists);
      ghost var b :| b in bs && b.addr == ptr && !b.free;
      OneAtAddress(bs, BASE, |m| - 4, b);
      lists := FreeBlock(heap, ptr - 4, k, bs, lists);
      blocks := Release(bs, k);
      FreeSettled(heap.Mem(), bs, lists, k);
    }

    /** The owner of an allocated block stores a word in its payload. */
    method Store(a: int, v: int, ghost b: Block)
      requires Valid() && b in blocks && !b.free && b.addr <= a && Aligned(a) && a + 4 <= b.addr + b.size - 8
      modifies heap.cells
      ensures Valid() && heap.Mem() == old(heap.Mem())[a := v]
      ensures Preserved(old(heap.Mem()), heap.Mem(), blocks, blocks, {b})
    {
      PayloadInside(Floor, heap.Mem(), blocks, lists, b);
      PayloadInv(Floor, heap.Mem(), heap.Mem()[a := v], blocks, lists, b);
      heap.Put(a, v);
    }
  }

  lemma Pow2Positive(size: nat)
    ensures Pow2(CeilLog(size)) > 0
  {
  }

  lemma WordsEven(words: int)
    requires words % 2 == 0
    ensures Even(words) == words && Even(CHUNK) == CHUNK
  {
  }
}
