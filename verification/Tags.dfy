/** Boundary tags: a heap in which every block carries its size and status in a header and a footer. */
module Tags {
  import opened Common
  import opened Memlib
  import opened Blocks
  import opened Fits

  /** The allocators with headers and footers: `mm.c`, `mm_seg_ref_97.c` and `mm_explicit_ref.c`.
      A block starts at its payload; its header is the word before. */
  datatype Design = Ceil | Floor | Ring

  const NULL := 0

  /** The first block. Before it lie the list heads and the prologue. */
  function Base(d: Design): int {
    if d.Ring? then 24 else 216
  }

  /** Where a block after the last one would start. Its header is the epilogue. */
  function End(d: Design, m: seq<int>): int {
    if d.Floor? then |m| - 4 else |m|
  }

  /** Header and footer: the size in bytes, or the payload's size in words shifted by three, with the allocated bit. */
  function TagWord(d: Design, b: Block): int {
    (if d.Floor? then 2 * (b.size - 8) else b.size) + (if b.free then 0 else 1)
  }

  ghost predicate Tagged(d: Design, m: seq<int>, b: Block) {
    && Base(d) <= b.addr && b.size >= LEAST && b.addr + b.size <= End(d, m) && Boundary(b.addr) && Boundary(b.addr + b.size)
    && m[b.addr - 4] == TagWord(d, b) && m[b.addr + b.size - 8] == TagWord(d, b)
  }

  /** The tags of the prologue. */
  ghost predicate Prologue(d: Design, m: seq<int>)
    requires Base(d) <= |m|
  {
    match d
    case Ceil => m[204] == 9 && m[208] == 9
    case Floor => m[204] == 1 && m[208] == 1
    case Ring => m[4] == 17 && m[16] == 17
  }

  /** Prologue, blocks and epilogue tile the heap. */
  ghost predicate Layout(d: Design, m: seq<int>, bs: seq<Block>) {
    && Base(d) <= End(d, m) && Prologue(d, m) && m[End(d, m) - 4] == 1
    && Tiles(bs, Base(d), End(d, m))
    && forall b :: b in bs ==> Tagged(d, m, b)
  }

  // ---------- reading tags ----------

  /** Size and status can be read back; the bit above the allocated bit is never set. */
  lemma TagBits(d: Design, b: Block)
    requires b.size % 8 == 0
    ensures TagWord(d, b) % 2 == 0 <==> b.free
    ensures !d.Floor? ==> Masked(TagWord(d, b)) == b.size && TagWord(d, b) / 2 % 2 == 0 && (b.free ==> TagWord(d, b) % 8 == 0)
    ensures d.Floor? ==> 4 * (TagWord(d, b) / 8) + 8 == b.size
  {
    var q := b.size / 8;
    assert b.size == 8 * q;
    Eights(q);
    Eights(2 * (q - 1));
  }

  /** Blocks start and end at multiples of eight. */
  lemma StartAligned(d: Design, m: seq<int>, bs: seq<Block>, k: nat)
    requires Layout(d, m, bs) && k <= |bs|
    ensures Start(bs, k, End(d, m)) % 8 == 0 && Boundary(Start(bs, k, End(d, m)))
  {
    hide Tagged;
    TilesSplit(bs, k, Base(d), End(d, m));
    MultipleSum(Base(d), Start(bs, k, End(d, m)) - Base(d));
  }

  lemma MaskedSize(size: int)
    requires size % 8 == 0
    ensures Masked(size) == size
  {
  }

  lemma TagsAt(d: Design, m: seq<int>, bs: seq<Block>, k: nat)
    requires Layout(d, m, bs) && k < |bs|
    ensures var b := bs[k];
      && Base(d) <= b.addr && b.size >= LEAST && b.size % 8 == 0 && Boundary(b.addr) && Boundary(b.addr + b.size)
      && b.addr == Start(bs, k, End(d, m)) && b.addr + b.size == Start(bs, k + 1, End(d, m)) <= End(d, m) <= |m|
      && m[b.addr - 4] == TagWord(d, b) && m[b.addr + b.size - 8] == TagWord(d, b)
      && (TagWord(d, b) % 2 == 0 <==> b.free)
      && (!d.Floor? ==> Masked(TagWord(d, b)) == b.size && TagWord(d, b) / 2 % 2 == 0)
      && (d.Floor? ==> 4 * (TagWord(d, b) / 8) + 8 == b.size)
  {
    hide TagWord, Masked;
    assert Tagged(d, m, bs[k]);
    TileAt(bs, k, Base(d), End(d, m));
    TagBits(d, bs[k]);
  }

  /** What the tags around block `k` say; prologue and epilogue count as allocated. */
  lemma Around(d: Design, m: seq<int>, bs: seq<Block>, k: nat)
    requires Layout(d, m, bs) && k < |bs| && !d.Floor?
    ensures var b := bs[k];
      && Base(d) <= b.addr && b.size >= LEAST && b.size % 8 == 0 && b.addr + b.size == Start(bs, k + 1, |m|) <= |m|
      && Boundary(b.addr)
      && m[b.addr - 4] == TagWord(d, b) && Masked(m[b.addr - 4]) == b.size && m[b.addr + b.size - 8] == TagWord(d, b)
      && b.addr == Start(bs, k, |m|)
    ensures var prev := bs[k].addr - Masked(m[bs[k].addr - 8]);
      && 8 <= prev && prev + 8 <= bs[k].addr && Boundary(prev)
      && (m[prev - 4] % 2 == 0 <==> k > 0 && bs[k - 1].free) && m[prev - 4] / 2 % 2 == 0
      && Masked(m[prev - 4]) == bs[k].addr - prev && m[bs[k].addr - 8] == m[prev - 4]
      && (k > 0 ==> prev == bs[k - 1].addr && Masked(m[prev - 4]) == bs[k - 1].size)
    ensures var next := bs[k].addr + bs[k].size;
      && Boundary(next) && (m[next - 4] % 2 == 0 <==> k + 1 < |bs| && bs[k + 1].free) && m[next - 4] / 2 % 2 == 0
      && (k + 1 < |bs| ==> next == bs[k + 1].addr && Masked(m[next - 4]) == bs[k + 1].size)
      && (k + 1 == |bs| ==> next == |m| && m[next - 4] == 1)
  {
    TagsAt(d, m, bs, k);
    if k > 0 {
      TagsAt(d, m, bs, k - 1);
    } else {
      assert bs[k].addr == Base(d);
    }
    if k + 1 < |bs| {
      TagsAt(d, m, bs, k + 1);
    }
  }

  /** Header, then the footer that the header points to. */
  method PutTags(h: Memory, bp: int, word: int)
    requires h.Valid() && 4 <= bp && 8 <= Masked(word) && bp + Masked(word) <= h.brk + 4 && Boundary(bp) && Boundary(bp + Masked(word))
    modifies h.cells
    ensures h.Mem() == old(h.Mem())[bp - 4 := word][bp + Masked(word) - 8 := word]
  {
    h.Put(bp - 4, word);
    h.Put(bp + Masked(h.Get(bp - 4)) - 8, word);
  }

  // ---------- list words ----------

  /** The words that hold list heads, or the links of the sentinel. */
  predicate HeadWord(d: Design, x: int) {
    match d
    case Ceil => 0 <= x < 200
    case Floor => 0 <= x < 204
    case Ring => 8 <= x < 16
  }

  /** Cell `x` is a list head or a link word of a free block. */
  ghost predicate LinkWord(d: Design, bs: seq<Block>, x: int) {
    HeadWord(d, x) || exists b :: b in bs && b.free && (x == b.addr || x == b.addr + 4)
  }

  ghost predicate OnlyLinks(d: Design, m: seq<int>, m': seq<int>, bs: seq<Block>) {
    |m| == |m'| && forall x :: 0 <= x < |m| && m[x] != m'[x] ==> LinkWord(d, bs, x)
  }

  /** Links leave prologue, tags and epilogue alone. */
  lemma LayoutLinks(d: Design, m: seq<int>, m': seq<int>, bs: seq<Block>)
    requires Layout(d, m, bs) && OnlyLinks(d, m, m', bs)
    ensures Layout(d, m', bs)
  {
    hide TagWord, Boundary, Tiles;
    var e := End(d, m) - 4;
    forall x | 0 <= x < |m| && (x == e || (x <= Base(d) - 8 && !HeadWord(d, x))) ensures m'[x] == m[x] {
      forall b | b in bs && b.free ensures x != b.addr && x != b.addr + 4 {
        assert Tagged(d, m, b);
      }
    }
    forall b | b in bs ensures Tagged(d, m', b) {
      assert Tagged(d, m, b);
      forall x | x == b.addr - 4 || x == b.addr + b.size - 8 ensures m'[x] == m[x] {
        forall c | c in bs && c.free ensures x != c.addr && x != c.addr + 4 {
          assert Tagged(d, m, c);
          BlocksApart(bs, b, c, Base(d), End(d, m));
        }
      }
    }
  }

  // ---------- what a call leaves unchanged ----------

  /** The payload of an allocated block: everything between header and footer. */
  ghost predicate SamePayload(m: seq<int>, m': seq<int>, b: Block) {
    && 0 <= b.addr && b.addr + b.size - 4 <= |m| && b.addr + b.size - 4 <= |m'|
    && forall x :: b.addr <= x < b.addr + b.size - 8 ==> m'[x] == m[x]
  }

  /** Every allocated block of `bs` except those in `gone` is still there, with the same payload. */
  ghost predicate Preserved(m: seq<int>, m': seq<int>, bs: seq<Block>, bs': seq<Block>, gone: set<Block>) {
    forall b :: b in bs && !b.free && b !in gone ==> b in bs' && SamePayload(m, m', b)
  }

  lemma PreservedTrans(m0: seq<int>, m1: seq<int>, m2: seq<int>, bs0: seq<Block>, bs1: seq<Block>, bs2: seq<Block>, gone: set<Block>)
    requires Preserved(m0, m1, bs0, bs1, gone) && Preserved(m1, m2, bs1, bs2, gone)
    ensures Preserved(m0, m2, bs0, bs2, gone)
  {
    forall b | b in bs0 && !b.free && b !in gone ensures b in bs2 && SamePayload(m0, m2, b) {
      assert SamePayload(m0, m1, b) && SamePayload(m1, m2, b);
    }
  }

  lemma PreservedMore(m: seq<int>, m': seq<int>, bs: seq<Block>, bs': seq<Block>, gone: set<Block>)
    requires Preserved(m, m', bs, bs', {})
    ensures Preserved(m, m', bs, bs', gone)
  {
  }

  /** List links live in free blocks only. */
  lemma LinksPreserved(d: Design, m: seq<int>, m': seq<int>, bs: seq<Block>, gone: set<Block>)
    requires Layout(d, m, bs) && OnlyLinks(d, m, m', bs)
    ensures Preserved(m, m', bs, bs, gone)
  {
    hide TagWord;
    forall b | b in bs && !b.free ensures SamePayload(m, m', b) {
      assert Tagged(d, m, b);
      forall x | b.addr <= x < b.addr + b.size - 8 ensures m'[x] == m[x] {
        forall c | c in bs && c.free ensures x != c.addr && x != c.addr + 4 {
          assert Tagged(d, m, c);
          BlocksApart(bs, b, c, Base(d), End(d, m));
        }
      }
    }
  }

  lemma PreservedRefl(d: Design, m: seq<int>, bs: seq<Block>, gone: set<Block>)
    requires Layout(d, m, bs)
    ensures Preserved(m, m, bs, bs, gone)
  {
    LinksPreserved(d, m, m, bs, gone);
  }

  // ---------- positions ----------

  /** `b` is a block of `bs` outside the stretch `lo..hi`. */
  ghost predicate Outer(bs: seq<Block>, lo: nat, hi: nat, b: Block)
    requires lo <= hi <= |bs|
  {
    b in bs[..lo] || b in bs[hi..]
  }

  lemma OuterWhere(bs: seq<Block>, lo: nat, hi: nat, b: Block, from: int, to: int)
    requires Tiles(bs, from, to) && lo <= hi <= |bs| && Outer(bs, lo, hi, b)
    ensures b in bs && b.size >= 8 && from <= b.addr && b.addr + b.size <= to
    ensures b.addr + b.size <= Start(bs, lo, to) || Start(bs, hi, to) <= b.addr
  {
    TilesSplit(bs, lo, from, to);
    TilesSplit(bs, hi, from, to);
    if b in bs[..lo] {
      BlocksApart(bs[..lo], b, b, from, Start(bs, lo, to));
    } else {
      BlocksApart(bs[hi..], b, b, Start(bs, hi, to), to);
    }
  }

  lemma InnerTiles(bs: seq<Block>, lo: nat, hi: nat, from: int, to: int)
    requires Tiles(bs, from, to) && lo <= hi <= |bs|
    ensures Tiles(bs[lo..hi], Start(bs, lo, to), Start(bs, hi, to))
    ensures from <= Start(bs, lo, to) <= Start(bs, hi, to) <= to
  {
    TilesSplit(bs, hi, from, to);
    TilesSplit(bs[..hi], lo, from, Start(bs, hi, to));
    assert bs[..hi][lo..] == bs[lo..hi];
  }

  /** A tiling of the stretch holds no outer block. */
  lemma NotInner(xs: seq<Block>, l: int, r: int, b: Block)
    requires Tiles(xs, l, r) && b.size >= 8 && (b.addr + b.size <= l || r <= b.addr)
    ensures b !in xs
  {
    if b in xs {
      BlocksApart(xs, b, b, l, r);
      assert false;
    }
  }

  lemma OuterOrInner(bs: seq<Block>, lo: nat, hi: nat, b: Block)
    requires lo <= hi <= |bs| && b in bs
    ensures b in bs[lo..hi] || Outer(bs, lo, hi, b)
  {
    var j :| 0 <= j < |bs| && bs[j] == b;
    assert j < lo ==> bs[..lo][j] == b;
    assert lo <= j < hi ==> bs[lo..hi][j - lo] == b;
    assert hi <= j ==> bs[hi..][j - hi] == b;
  }

  // ---------- replacing a stretch ----------

  /** Only words from the header at `l` up to the header at `r` may differ. */
  ghost predicate OnlyRegion(m: seq<int>, m': seq<int>, l: int, r: int) {
    |m| == |m'| && forall x :: 0 <= x < |m| && m[x] != m'[x] ==> l - 4 <= x < r - 4
  }

  lemma RegionSpares(d: Design, m: seq<int>, m': seq<int>, l: int, r: int, b: Block)
    requires OnlyRegion(m, m', l, r) && Tagged(d, m, b) && (b.addr + b.size <= l || r <= b.addr)
    ensures Tagged(d, m', b) && SameLinks(m, m', b) && SamePayload(m, m', b)
  {
    hide TagWord;
  }

  /** Header and link words of a block are the same. */
  ghost predicate SameLinks(m: seq<int>, m': seq<int>, b: Block) {
    && 8 <= b.addr && b.addr + 8 <= |m| && |m| <= |m'|
    && m'[b.addr - 4] == m[b.addr - 4] && m'[b.addr] == m[b.addr] && m'[b.addr + 4] == m[b.addr + 4]
  }

  lemma SpliceLayout(d: Design, m: seq<int>, m': seq<int>, bs: seq<Block>, lo: nat, hi: nat, mid: seq<Block>)
    requires Layout(d, m, bs) && lo <= hi <= |bs| && Tiles(mid, Start(bs, lo, End(d, m)), Start(bs, hi, End(d, m)))
    requires OnlyRegion(m, m', Start(bs, lo, End(d, m)), Start(bs, hi, End(d, m)))
    requires forall b :: b in mid ==> Tagged(d, m', b)
    ensures Layout(d, m', Splice(bs, lo, hi, mid))
  {
    hide Tagged, Tiles, Splice;
    var to := End(d, m);
    InnerTiles(bs, lo, hi, Base(d), to);
    TilesSplice(bs, lo, hi, mid, Base(d), to);
    forall b | b in Splice(bs, lo, hi, mid) ensures Tagged(d, m', b) {
      SpliceMembers(bs, lo, hi, mid, b);
      if b !in mid {
        OuterWhere(bs, lo, hi, b, Base(d), to);
        RegionSpares(d, m, m', Start(bs, lo, to), Start(bs, hi, to), b);
      }
    }
  }

  lemma SplicePreserved(d: Design, m: seq<int>, m': seq<int>, bs: seq<Block>, lo: nat, hi: nat, mid: seq<Block>, gone: set<Block>)
    requires Layout(d, m, bs) && lo <= hi <= |bs| && OnlyRegion(m, m', Start(bs, lo, End(d, m)), Start(bs, hi, End(d, m)))
    requires forall b :: b in bs[lo..hi] && !b.free ==> b in gone
    ensures Preserved(m, m', bs, Splice(bs, lo, hi, mid), gone)
  {
    hide Tiles, SamePayload;
    var to := End(d, m);
    forall b | b in bs && !b.free && b !in gone ensures b in Splice(bs, lo, hi, mid) && SamePayload(m, m', b) {
      OuterOrInner(bs, lo, hi, b);
      OuterWhere(bs, lo, hi, b, Base(d), to);
      SpliceMembers(bs, lo, hi, mid, b);
      RegionSpares(d, m, m', Start(bs, lo, to), Start(bs, hi, to), b);
    }
  }

  function Freed(xs: seq<Block>): set<Block> {
    set b | b in xs && b.free
  }

  lemma OneInside(d: Design, m: seq<int>, bs: seq<Block>, lo: nat, hi: nat, b: Block)
    requires lo <= hi <= |bs| && Layout(d, m, bs) && Tiles([b], Start(bs, lo, End(d, m)), Start(bs, hi, End(d, m)))
    ensures Base(d) <= b.addr && b.addr + b.size <= End(d, m) <= |m| && b.size % 8 == 0 && Boundary(b.addr) && Boundary(b.addr + b.size)
    ensures b.addr == Start(bs, lo, End(d, m)) && b.addr + b.size == Start(bs, hi, End(d, m))
  {
    InnerTiles(bs, lo, hi, Base(d), End(d, m));
    assert [b][1..] == [];
    StartAligned(d, m, bs, lo);
    StartAligned(d, m, bs, hi);
  }

  /** A new block and a new epilogue at the end of the heap. */
  lemma GrownLayout(d: Design, m: seq<int>, m': seq<int>, bs: seq<Block>, n: int)
    requires Layout(d, m, bs) && n >= LEAST && n % 8 == 0 && |m'| == |m| + n
    requires var e := End(d, m);
      && m'[..e - 4] == m[..e - 4] && m'[e + n - 4] == 1
      && var b := Block(e, n, true); m'[e - 4] == TagWord(d, b) && m'[e + n - 8] == TagWord(d, b)
    ensures Layout(d, m', bs + [Block(End(d, m), n, true)])
    ensures Preserved(m, m', bs, bs + [Block(End(d, m), n, true)], {})
    ensures forall x :: x in bs ==> SameLinks(m, m', x)
  {
    hide TagWord, Boundary, Tiles;
    var e := End(d, m);
    var b := Block(e, n, true);
    StartAligned(d, m, bs, |bs|);
    MultipleSum(e, n);
    assert forall x :: 0 <= x < e - 4 ==> m'[x] == m'[..e - 4][x] == m[..e - 4][x];
    OneTile(b, e, e + n);
    TilesConcat(bs, [b], Base(d), e, e + n);
    forall x | x in bs ensures Tagged(d, m', x) && SameLinks(m, m', x) && SamePayload(m, m', x) {
      assert Tagged(d, m, x);
    }
  }

  // ---------- joining free neighbours ----------

  lemma FuseReads(d: Design, m: seq<int>, bs: seq<Block>, lo: nat, hi: nat, b: Block)
    requires Layout(d, m, bs) && !d.Floor? && lo < hi <= |bs| && bs[lo].free && bs[hi - 1].free
    requires b.addr == Start(bs, lo, End(d, m)) && b.addr + b.size == Start(bs, hi, End(d, m))
    ensures Base(d) <= b.addr && b.addr + b.size <= |m| && LEAST <= b.size && Boundary(b.addr) && Boundary(b.addr + b.size)
    ensures m[b.addr - 4] % 8 == 0 && m[b.addr + b.size - 8] % 8 == 0
  {
    TagsAt(d, m, bs, lo);
    TagsAt(d, m, bs, hi - 1);
    TagBits(d, bs[lo]);
    TagBits(d, bs[hi - 1]);
    if lo < hi - 1 {
      TilesOrder(bs, lo, hi - 1, Base(d), End(d, m));
    }
  }

  /** The blocks that `coalesce` joins. */
  lemma Joined(d: Design, m: seq<int>, bs: seq<Block>, k: nat)
    requires Layout(d, m, bs) && k < |bs| && bs[k].free
    ensures var lo, hi := First(bs, k), Past(bs, k);
      && lo < hi <= |bs| && bs[lo].free && bs[hi - 1].free && (forall x :: x in bs[lo..hi] ==> x.free)
      && Tiles([Merged(bs, k)], Start(bs, lo, End(d, m)), Start(bs, hi, End(d, m)))
      && (lo < k ==> bs[k - 1] != bs[k]) && (k + 1 < hi ==> bs[k + 1] != bs[k]) && (lo < k && k + 1 < hi ==> bs[k - 1] != bs[k + 1])
      && Freed(bs[lo..hi]) == {bs[k]} + (if lo < k then {bs[k - 1]} else {}) + (if k + 1 < hi then {bs[k + 1]} else {})
  {
    hide Layout, Freed, Merged, Tiles, TagWord;
    MergedStretch(d, m, bs, k);
    var lo, hi := First(bs, k), Past(bs, k);
    TagsAt(d, m, bs, k);
    if lo < k {
      TagsAt(d, m, bs, k - 1);
    }
    if k + 1 < hi {
      TagsAt(d, m, bs, k + 1);
    }
    JoinedMembers(bs, k);
  }

  lemma MergedStretch(d: Design, m: seq<int>, bs: seq<Block>, k: nat)
    requires Layout(d, m, bs) && k < |bs|
    ensures Tiles([Merged(bs, k)], Start(bs, First(bs, k), End(d, m)), Start(bs, Past(bs, k), End(d, m)))
  {
    MergedTiles(bs, k, Base(d), End(d, m));
  }

  lemma JoinedMembers(bs: seq<Block>, k: nat)
    requires k < |bs| && bs[k].free
    ensures var lo, hi := First(bs, k), Past(bs, k);
      && (forall x :: x in bs[lo..hi] ==> x.free)
      && Freed(bs[lo..hi]) == {bs[k]} + (if lo < k then {bs[k - 1]} else {}) + (if k + 1 < hi then {bs[k + 1]} else {})
  {
    var lo, hi := First(bs, k), Past(bs, k);
    assert bs[lo..hi] == (if lo < k then [bs[k - 1]] else []) + [bs[k]] + (if k + 1 < hi then [bs[k + 1]] else []);
  }

  /** Without free neighbours nothing changes. */
  lemma AlreadyMerged(bs: seq<Block>, k: nat)
    requires k < |bs| && bs[k].free && !(k > 0 && bs[k - 1].free) && !(k + 1 < |bs| && bs[k + 1].free)
    ensures Release(bs, k) == bs && Merged(bs, k).addr == bs[k].addr
  {
    assert Merged(bs, k) == bs[k] && bs[..k] + [bs[k]] + bs[k + 1..] == bs;
  }

  // ---------- splitting ----------

  /** The four tags of two blocks that share the space of one. */
  function SplitTags(d: Design, m: seq<int>, x: Block, y: Block): seq<int>
    requires 4 <= x.addr && 8 <= x.size && x.addr + x.size <= y.addr && 8 <= y.size && y.addr + y.size <= |m|
  {
    m[x.addr - 4 := TagWord(d, x)][x.addr + x.size - 8 := TagWord(d, x)][y.addr - 4 := TagWord(d, y)][y.addr + y.size - 8 := TagWord(d, y)]
  }

  lemma SplitTagged(d: Design, m: seq<int>, x: Block, y: Block)
    requires Base(d) <= x.addr && x.size >= LEAST && y.addr == x.addr + x.size && y.size >= LEAST && y.addr + y.size <= End(d, m)
    requires Boundary(x.addr) && Boundary(y.addr) && Boundary(y.addr + y.size)
    ensures OnlyRegion(m, SplitTags(d, m, x, y), x.addr, y.addr + y.size)
    ensures Tagged(d, SplitTags(d, m, x, y), x) && Tagged(d, SplitTags(d, m, x, y), y)
  {
    hide TagWord, Boundary;
  }

  /** Where two blocks lie that share the space of one. */
  lemma SplitBounds(d: Design, m: seq<int>, bs: seq<Block>, k: nat, x: Block, y: Block)
    requires Layout(d, m, bs) && k < |bs|
    requires x.addr == bs[k].addr && y.addr == x.addr + x.size && x.size + y.size == bs[k].size && x.size % 8 == 0
    ensures Base(d) <= x.addr && x.addr == Start(bs, k, End(d, m)) && y.addr + y.size == Start(bs, k + 1, End(d, m)) <= End(d, m)
    ensures y.size % 8 == 0 && Boundary(x.addr) && Boundary(y.addr) && Boundary(y.addr + y.size)
  {
    hide Tiles, Layout, TagWord, Boundary;
    TagsAt(d, m, bs, k);
    StartAligned(d, m, bs, k);
    MultipleSum(x.addr, x.size);
    Difference(bs[k].size, x.size);
  }

  lemma Difference(a: int, b: int)
    requires a % 8 == 0 && b % 8 == 0
    ensures (a - b) % 8 == 0
  {
    var p, q := a / 8, b / 8;
    assert a - b == 8 * (p - q);
    Eights(p - q);
  }

  lemma SplitWords(d: Design, m: seq<int>, bs: seq<Block>, k: nat, x: Block, y: Block)
    requires Layout(d, m, bs) && k < |bs| && bs[k].free
    requires x.addr == bs[k].addr && y.addr == x.addr + x.size && x.size + y.size == bs[k].size
    requires x.size >= LEAST && y.size >= LEAST && x.size % 8 == 0
    ensures Base(d) <= x.addr && y.addr + y.size <= End(d, m) && y.size % 8 == 0
    ensures Boundary(x.addr) && Boundary(y.addr) && Boundary(y.addr + y.size)
    ensures Tiles([x, y], Start(bs, k, End(d, m)), Start(bs, k + 1, End(d, m))) && Freed(bs[k..k + 1]) == {bs[k]}
    ensures OnlyRegion(m, SplitTags(d, m, x, y), Start(bs, k, End(d, m)), Start(bs, k + 1, End(d, m)))
    ensures forall b :: b in [x, y] ==> Tagged(d, SplitTags(d, m, x, y), b)
  {
    SplitBounds(d, m, bs, k, x, y);
    SplitTagged(d, m, x, y);
    hide Tiles, Layout, TagWord, Boundary, SplitTags, Tagged, OnlyRegion;
    OneTile(y, y.addr, y.addr + y.size);
    OneTile(x, x.addr, y.addr);
    TilesConcat([x], [y], x.addr, y.addr, y.addr + y.size);
    assert [x] + [y] == [x, y] && bs[k..k + 1] == [bs[k]];
  }

  /** The tags of a block that takes the place of one block. */
  lemma WholeWords(d: Design, m: seq<int>, bs: seq<Block>, k: nat, free: bool)
    requires Layout(d, m, bs) && k < |bs|
    ensures Tiles([Block(bs[k].addr, bs[k].size, free)], Start(bs, k, End(d, m)), Start(bs, k + 1, End(d, m)))
    ensures Freed(bs[k..k + 1]) == (if bs[k].free then {bs[k]} else {})
    ensures Base(d) <= bs[k].addr && bs[k].size >= LEAST && bs[k].size % 8 == 0 && bs[k].addr + bs[k].size <= |m|
    ensures Boundary(bs[k].addr) && Boundary(bs[k].addr + bs[k].size)
  {
    hide Tiles, Layout, TagWord;
    TagsAt(d, m, bs, k);
    OneTile(Block(bs[k].addr, bs[k].size, free), bs[k].addr, bs[k].addr + bs[k].size);
    assert bs[k..k + 1] == [bs[k]];
  }

  // ---------- payloads ----------

  /** Only the payload of `b` may differ. */
  ghost predicate OnlyPayload(m: seq<int>, m': seq<int>, b: Block) {
    |m| == |m'| && forall x :: 0 <= x < |m| && m[x] != m'[x] ==> b.addr <= x < b.addr + b.size - 8
  }

  /** The payload of an allocated block matters to nobody but its owner. */
  lemma PayloadLayout(d: Design, m: seq<int>, m': seq<int>, bs: seq<Block>, b: Block)
    requires Layout(d, m, bs) && b in bs && OnlyPayload(m, m', b)
    ensures Layout(d, m', bs) && Preserved(m, m', bs, bs, {b})
    ensures forall x :: x in bs && x != b ==> SameLinks(m, m', x)
  {
    hide TagWord, Boundary, Tiles;
    assert Tagged(d, m, b);
    forall x | x in bs ensures Tagged(d, m', x) && (x != b ==> SameLinks(m, m', x) && SamePayload(m, m', x)) {
      assert Tagged(d, m, x);
      BlocksApart(bs, b, x, Base(d), End(d, m));
    }
  }

  /** Payloads are aligned, lie inside the heap and do not overlap. */
  lemma Payloads(d: Design, m: seq<int>, bs: seq<Block>, b: Block, c: Block)
    requires Layout(d, m, bs) && b in bs && c in bs
    ensures b.addr % 8 == 0 && Base(d) <= b.addr && b.addr + (b.size - 8) < |m|
    ensures b == c || b.addr + (b.size - 8) <= c.addr || c.addr + (c.size - 8) <= b.addr
  {
    hide Tiles;
    BlocksApart(bs, b, c, Base(d), End(d, m));
    var q := (b.addr - Base(d)) / 8;
    assert b.addr == 8 * (q + Base(d) / 8);
    Eights(q + Base(d) / 8);
  }
}
