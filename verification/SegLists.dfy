/** The segregated free lists of `mm.c` and `mm_seg_ref_97.c`: size classes, and doubly linked lists
    in the words of free blocks. */
module SegLists {
  import opened Common
  import opened Memlib
  import opened Blocks
  import opened Tags

  /** The list heads occupy the first words of the heap. */
  const LISTS_END := 204

  function Lists(d: Design): nat {
    if d.Ceil? then 50 else 51
  }

  // ---------- size classes ----------

  /** The least `c` with `val <= 2^c`. */
  function CeilLog(val: nat): (c: nat)
    ensures val <= Pow2(c)
    ensures c > 0 ==> Pow2(c - 1) < val
  {
    if val <= 1 then 0 else
      var c := CeilLog((val + 1) / 2);
      assert c == 0 ==> (val + 1) / 2 <= 1;
      c + 1
  }

  /** The greatest `c` with `2^c <= val`. */
  function FloorLog(val: nat): (c: nat)
    ensures val >= 1 ==> Pow2(c) <= val
    ensures val < Pow2(c + 1)
  {
    if val <= 1 then 0 else 1 + FloorLog(val / 2)
  }

  /** The words between header and footer. */
  function Payload(size: nat): nat {
    if size < 8 then 0 else (size - 8) / 4
  }

  /** The class of a block of `size` bytes: by its size, or by its payload in words. */
  function Class(d: Design, size: nat): (c: nat) {
    if d.Floor? then FloorLog(Payload(size)) else CeilLog(size)
  }

  /** Blocks of a lower class are smaller. */
  lemma ClassOrder(d: Design, x: nat, y: nat)
    requires Class(d, x) < Class(d, y)
    ensures x < y
  {
    if d.Floor? {
      FloorOrder(Payload(x), Payload(y));
    } else {
      Pow2Monotone(CeilLog(x), CeilLog(y) - 1);
    }
  }

  lemma FloorOrder(v: nat, w: nat)
    requires FloorLog(v) < FloorLog(w)
    ensures v < w
  {
    Pow2Monotone(FloorLog(v) + 1, FloorLog(w));
  }

  lemma {:induction false} CeilLogBelow(val: nat, c: nat)
    requires val <= Pow2(c)
    ensures CeilLog(val) <= c
  {
    if val > 1 {
      CeilLogBelow((val + 1) / 2, c - 1);
    }
  }

  lemma {:induction false} FloorLogBelow(val: nat, c: nat)
    requires val < Pow2(c + 1)
    ensures FloorLog(val) <= c
  {
    if val > 1 {
      FloorLogBelow(val / 2, c - 1);
    }
  }

  /** Every 32-bit size has a list. */
  lemma ClassFits(d: Design, val: nat)
    requires val <= TWO32
    ensures Class(d, val) <= 32 && Class(d, val) < Lists(d)
  {
    assert Pow2(8) == 256;
    assert Pow2(16) == 256 * Pow2(8);
    assert Pow2(24) == 256 * Pow2(16);
    assert Pow2(32) == 256 * Pow2(24);
    if d.Floor? {
      FloorLogBelow(Payload(val), 32);
    } else {
      CeilLogBelow(val, 32);
    }
  }

  /** `CEIL_POW2_IDX`: counting shifts gives the class. */
  method CeilPow2Idx(val: nat) returns (c: nat)
    ensures c == CeilLog(val)
  {
    hide CeilLog, Pow2;
    SmallLog();
    if val <= 1 {
      return 0;
    }
    var v: nat, idx := val - 1, 0;
    ShiftCeil(v);
    v := v / 2;
    while v != 0
      invariant CeilLog(val) == idx + 1 + CeilLog(v + 1)
    {
      ShiftCeil(v);
      v := v / 2;
      idx := idx + 1;
    }
    return idx + 1;
  }

  lemma SmallLog()
    ensures CeilLog(0) == 0 && CeilLog(1) == 0
  {
  }

  lemma ShiftCeil(v: nat)
    requires v > 0
    ensures CeilLog(v + 1) == 1 + CeilLog(v / 2 + 1)
  {
    assert (v + 2) / 2 == v / 2 + 1;
  }

  /** `find_free_list_index`: at most `MAX_POWER + 1` shifts. */
  method FindFreeListIndex(words: nat) returns (c: nat)
    ensures c == if FloorLog(words) <= 51 then FloorLog(words) else 51
  {
    var w := words;
    c := 0;
    while c <= 50 && w > 1
      invariant c <= 51 && FloorLog(words) == c + FloorLog(w)
      decreases w
    {
      w := w / 2;
      c := c + 1;
    }
  }

  // ---------- the lists ----------

  /** How a link names a block: by its payload, or by its header. */
  function Ptr(d: Design, b: Block): int {
    if d.Floor? then b.addr - 4 else b.addr
  }

  function PredOf(d: Design, xs: seq<Block>, i: nat): int
    requires i < |xs|
  {
    if i == 0 then NULL else Ptr(d, xs[i - 1])
  }

  function SuccOf(d: Design, xs: seq<Block>, i: nat): int
    requires i < |xs|
  {
    if i + 1 < |xs| then Ptr(d, xs[i + 1]) else NULL
  }

  function HeadOf(d: Design, xs: seq<Block>): int {
    if xs == [] then NULL else Ptr(d, xs[0])
  }

  /** A free block's header, and its two links. */
  ghost predicate LinkedAt(d: Design, m: seq<int>, b: Block, pred: int, succ: int) {
    && LISTS_END + 8 <= b.addr && b.addr + 8 <= |m| && Boundary(b.addr) && b.size % 8 == 0
    && m[b.addr - 4] == TagWord(d, b) && m[b.addr] == pred && m[b.addr + 4] == succ
  }

  /** `mm.c` keeps its lists ascending, `mm_seg_ref_97.c` descending. */
  predicate Upto(d: Design, x: int, y: int) {
    if d.Floor? then x >= y else x <= y
  }

  ghost predicate Ordered(d: Design, xs: seq<Block>) {
    forall i, j :: 0 <= i < j < |xs| ==> Upto(d, xs[i].size, xs[j].size)
  }

  ghost predicate Linked(d: Design, m: seq<int>, xs: seq<Block>, i: nat)
    requires i < |xs|
  {
    LinkedAt(d, m, xs[i], PredOf(d, xs, i), SuccOf(d, xs, i))
  }

  /** The list with head word `cell`: doubly linked, acyclic, ascending. */
  ghost predicate Chain(d: Design, m: seq<int>, cell: int, xs: seq<Block>) {
    && 0 <= cell && Aligned(cell) && cell + 4 <= LISTS_END <= |m| && m[cell] == HeadOf(d, xs)
    && Spread(xs) && Ordered(d, xs)
    && forall i {:trigger Linked(d, m, xs, i)} :: 0 <= i < |xs| ==> Linked(d, m, xs, i)
  }

  /** Cell `x` belongs to the list: its head word or a link word of a block in it. */
  ghost predicate ChainWord(cell: int, xs: seq<Block>, x: int) {
    x == cell || exists b :: b in xs && (x == b.addr || x == b.addr + 4)
  }

  ghost predicate OnlyChain(m: seq<int>, m': seq<int>, cell: int, xs: seq<Block>) {
    |m| == |m'| && forall x :: 0 <= x < |m| && m[x] != m'[x] ==> ChainWord(cell, xs, x)
  }

  function Inserted<T>(xs: seq<T>, k: nat, x: T): seq<T>
    requires k <= |xs|
  {
    xs[..k] + [x] + xs[k..]
  }

  predicate InHeap(m: seq<int>, b: Block) {
    LISTS_END + 8 <= b.addr && b.addr + 8 <= |m| && Boundary(b.addr)
  }

  /** Every block of a list lies inside the heap. */
  lemma ChainInHeap(d: Design, m: seq<int>, cell: int, xs: seq<Block>, k: nat)
    requires Chain(d, m, cell, xs)
    ensures 0 <= cell < |m| && (k < |xs| ==> InHeap(m, xs[k]) && m[xs[k].addr - 4] == TagWord(d, xs[k]))
    ensures k < |xs| ==> m[xs[k].addr] == PredOf(d, xs, k) && m[xs[k].addr + 4] == SuccOf(d, xs, k)
  {
    assert k < |xs| ==> Linked(d, m, xs, k);
  }

  /** What `pop_from_seglist` writes. */
  function Popped(d: Design, m: seq<int>, cell: int, xs: seq<Block>, k: nat): seq<int>
    requires k < |xs| && 0 <= cell < |m|
    requires (k > 0 ==> InHeap(m, xs[k - 1])) && (k + 1 < |xs| ==> InHeap(m, xs[k + 1]))
  {
    var p, s := PredOf(d, xs, k), SuccOf(d, xs, k);
    var m1 := if k == 0 then m[cell := s] else m[xs[k - 1].addr + 4 := s];
    if k + 1 < |xs| then m1[xs[k + 1].addr := p] else m1
  }

  lemma PoppedChain(d: Design, m: seq<int>, cell: int, xs: seq<Block>, k: nat)
    requires Chain(d, m, cell, xs) && k < |xs| && 0 <= cell < |m|
    requires (k > 0 ==> InHeap(m, xs[k - 1])) && (k + 1 < |xs| ==> InHeap(m, xs[k + 1]))
    ensures Chain(d, Popped(d, m, cell, xs, k), cell, Without(xs, k))
    ensures OnlyChain(m, Popped(d, m, cell, xs, k), cell, xs)
  {
    var m', ys := Popped(d, m, cell, xs, k), Without(xs, k);
    WithoutOrder(d, xs, k);
    assert Linked(d, m, xs, k);
    assert k > 0 ==> Linked(d, m, xs, k - 1) && xs[k - 1] in xs;
    assert k + 1 < |xs| ==> Linked(d, m, xs, k + 1) && xs[k + 1] in xs;
    forall i | 0 <= i < |ys| ensures Linked(d, m', ys, i) {
      PoppedLink(d, m, cell, xs, k, i);
    }
    assert m'[cell] == HeadOf(d, ys);
  }

  lemma WithoutOrder(d: Design, xs: seq<Block>, k: nat)
    requires k < |xs| && Spread(xs) && Ordered(d, xs)
    ensures Spread(Without(xs, k)) && Ordered(d, Without(xs, k))
  {
    var ys := Without(xs, k);
    forall i, j | 0 <= i < j < |ys| ensures Away(ys[i], ys[j]) && Upto(d, ys[i].size, ys[j].size) {
      assert ys[i] == xs[if i < k then i else i + 1] && ys[j] == xs[if j < k then j else j + 1];
    }
  }

  lemma PoppedLink(d: Design, m: seq<int>, cell: int, xs: seq<Block>, k: nat, i: nat)
    requires Chain(d, m, cell, xs) && k < |xs| && 0 <= cell < |m|
    requires (k > 0 ==> InHeap(m, xs[k - 1])) && (k + 1 < |xs| ==> InHeap(m, xs[k + 1]))
    requires i + 1 < |xs|
    ensures Linked(d, Popped(d, m, cell, xs, k), Without(xs, k), i)
  {
    hide Chain, Spread, Popped, Without, Linked;
    var j := if i < k then i else i + 1;
    ChainLinked(d, m, cell, xs, j);
    ChainLinked(d, m, cell, xs, k);
    ChainAway(d, m, cell, xs, j, k - 1);
    ChainAway(d, m, cell, xs, j, k + 1);
    PoppedAt(d, m, cell, xs, k, j);
    WithoutLinks(d, xs, k, i);
    LinkedFrom(d, Popped(d, m, cell, xs, k), Without(xs, k), i, xs[j]);
  }

  lemma ChainLinked(d: Design, m: seq<int>, cell: int, xs: seq<Block>, i: nat)
    requires Chain(d, m, cell, xs) && i < |xs|
    ensures LinkedAt(d, m, xs[i], PredOf(d, xs, i), SuccOf(d, xs, i)) && cell + 4 <= LISTS_END
  {
    assert Linked(d, m, xs, i);
  }

  lemma ChainAway(d: Design, m: seq<int>, cell: int, xs: seq<Block>, i: int, j: int)
    requires Chain(d, m, cell, xs)
    ensures 0 <= i < |xs| && 0 <= j < |xs| && i != j ==> Away(xs[i], xs[j])
  {
    if 0 <= i < |xs| && 0 <= j < |xs| && i != j {
      SpreadAt(xs, i, j);
    }
  }

  lemma LinkedFrom(d: Design, m: seq<int>, xs: seq<Block>, i: nat, b: Block)
    requires i < |xs| && xs[i] == b && LinkedAt(d, m, b, PredOf(d, xs, i), SuccOf(d, xs, i))
    ensures Linked(d, m, xs, i)
  {
  }

  /** The words of block `j` after block `k` has gone. */
  lemma PoppedAt(d: Design, m: seq<int>, cell: int, xs: seq<Block>, k: nat, j: nat)
    requires k < |xs| && j < |xs| && j != k && 0 <= cell && cell + 4 <= LISTS_END <= |m|
    requires (k > 0 ==> InHeap(m, xs[k - 1])) && (k + 1 < |xs| ==> InHeap(m, xs[k + 1]))
    requires LinkedAt(d, m, xs[j], PredOf(d, xs, j), SuccOf(d, xs, j))
    requires k > 0 && j != k - 1 ==> Away(xs[j], xs[k - 1])
    requires k + 1 < |xs| && j != k + 1 ==> Away(xs[j], xs[k + 1])
    ensures LinkedAt(d, Popped(d, m, cell, xs, k), xs[j],
      if j == k + 1 then PredOf(d, xs, k) else PredOf(d, xs, j), if j + 1 == k then SuccOf(d, xs, k) else SuccOf(d, xs, j))
  {
    hide PredOf, SuccOf;
  }

  /** The neighbours after one block has gone. */
  lemma WithoutLinks(d: Design, xs: seq<Block>, k: nat, i: nat)
    requires k < |xs| && i + 1 < |xs|
    ensures |Without(xs, k)| == |xs| - 1
    ensures var ys, j := Without(xs, k), if i < k then i else i + 1;
      && ys[i] == xs[j]
      && PredOf(d, ys, i) == (if j == k + 1 then PredOf(d, xs, k) else PredOf(d, xs, j))
      && SuccOf(d, ys, i) == (if j + 1 == k then SuccOf(d, xs, k) else SuccOf(d, xs, j))
  {
  }

  /** What `push_in_seglist` writes when the block goes to position `k`. */
  function Pushed(d: Design, m: seq<int>, cell: int, xs: seq<Block>, k: nat, b: Block): seq<int>
    requires k <= |xs| && 0 <= cell < |m| && InHeap(m, b)
    requires (k > 0 ==> InHeap(m, xs[k - 1])) && (k < |xs| ==> InHeap(m, xs[k]))
  {
    var p, s := if k == 0 then NULL else Ptr(d, xs[k - 1]), if k < |xs| then Ptr(d, xs[k]) else NULL;
    var m1 := m[b.addr := p][b.addr + 4 := s];
    var m2 := if k == 0 then m1[cell := Ptr(d, b)] else m1[xs[k - 1].addr + 4 := Ptr(d, b)];
    if k < |xs| then m2[xs[k].addr := Ptr(d, b)] else m2
  }

  /** `b` can join the list at position `k`. */
  ghost predicate Joins(d: Design, m: seq<int>, xs: seq<Block>, k: nat, b: Block) {
    && k <= |xs| && LISTS_END + 8 <= b.addr && b.addr + 8 <= |m| && Boundary(b.addr) && b.size % 8 == 0 && m[b.addr - 4] == TagWord(d, b)
    && (forall i :: 0 <= i < |xs| ==> xs[i].addr + 16 <= b.addr || b.addr + 16 <= xs[i].addr)
    && (forall i :: 0 <= i < k ==> Upto(d, xs[i].size, b.size))
    && (forall i :: k <= i < |xs| ==> Upto(d, b.size, xs[i].size))
  }

  lemma PushedChain(d: Design, m: seq<int>, cell: int, xs: seq<Block>, k: nat, b: Block)
    requires Chain(d, m, cell, xs) && Joins(d, m, xs, k, b) && 0 <= cell < |m| && InHeap(m, b)
    requires (k > 0 ==> InHeap(m, xs[k - 1])) && (k < |xs| ==> InHeap(m, xs[k]))
    ensures Chain(d, Pushed(d, m, cell, xs, k, b), cell, Inserted(xs, k, b))
    ensures OnlyChain(m, Pushed(d, m, cell, xs, k, b), cell, Inserted(xs, k, b))
  {
    var m', ys := Pushed(d, m, cell, xs, k, b), Inserted(xs, k, b);
    InsertedOrder(d, m, xs, k, b);
    PushedWords(d, m, cell, xs, k, b);
    forall i | 0 <= i < |ys| ensures Linked(d, m', ys, i) {
      PushedLink(d, m, cell, xs, k, b, i);
    }
    PushedHead(d, m, cell, xs, k, b);
  }

  lemma PushedHead(d: Design, m: seq<int>, cell: int, xs: seq<Block>, k: nat, b: Block)
    requires Chain(d, m, cell, xs) && Joins(d, m, xs, k, b) && 0 <= cell < |m| && InHeap(m, b)
    requires (k > 0 ==> InHeap(m, xs[k - 1])) && (k < |xs| ==> InHeap(m, xs[k]))
    ensures Pushed(d, m, cell, xs, k, b)[cell] == HeadOf(d, Inserted(xs, k, b))
  {
    assert k > 0 ==> Linked(d, m, xs, k - 1);
    assert k < |xs| ==> Linked(d, m, xs, k);
    assert Inserted(xs, k, b)[0] == if k == 0 then b else xs[0];
  }

  lemma InsertedOrder(d: Design, m: seq<int>, xs: seq<Block>, k: nat, b: Block)
    requires Spread(xs) && Ordered(d, xs) && Joins(d, m, xs, k, b)
    ensures Spread(Inserted(xs, k, b)) && Ordered(d, Inserted(xs, k, b))
  {
    var ys := Inserted(xs, k, b);
    forall i, j | 0 <= i < j < |ys| ensures Away(ys[i], ys[j]) && Upto(d, ys[i].size, ys[j].size) {
      assert ys[i] == if i < k then xs[i] else if i == k then b else xs[i - 1];
      assert ys[j] == if j < k then xs[j] else if j == k then b else xs[j - 1];
    }
  }

  lemma PushedWords(d: Design, m: seq<int>, cell: int, xs: seq<Block>, k: nat, b: Block)
    requires Chain(d, m, cell, xs) && Joins(d, m, xs, k, b) && 0 <= cell < |m| && InHeap(m, b)
    requires (k > 0 ==> InHeap(m, xs[k - 1])) && (k < |xs| ==> InHeap(m, xs[k]))
    ensures OnlyChain(m, Pushed(d, m, cell, xs, k, b), cell, Inserted(xs, k, b))
  {
    InsertedMembers(xs, k, b);
    hide Chain, Joins, Inserted;
  }

  lemma InsertedMembers(xs: seq<Block>, k: nat, b: Block)
    requires k <= |xs|
    ensures b in Inserted(xs, k, b) && (k > 0 ==> xs[k - 1] in Inserted(xs, k, b)) && (k < |xs| ==> xs[k] in Inserted(xs, k, b))
    ensures forall x :: x in Inserted(xs, k, b) <==> x in xs || x == b
  {
    var ys := Inserted(xs, k, b);
    assert ys[k] == b && (k > 0 ==> ys[k - 1] == xs[k - 1]) && (k < |xs| ==> ys[k + 1] == xs[k]);
    forall x | x in xs ensures x in ys {
      var j :| 0 <= j < |xs| && xs[j] == x;
      assert ys[if j < k then j else j + 1] == x;
    }
  }

  lemma PushedLink(d: Design, m: seq<int>, cell: int, xs: seq<Block>, k: nat, b: Block, i: nat)
    requires Chain(d, m, cell, xs) && Joins(d, m, xs, k, b) && 0 <= cell < |m| && InHeap(m, b)
    requires (k > 0 ==> InHeap(m, xs[k - 1])) && (k < |xs| ==> InHeap(m, xs[k]))
    requires i <= |xs|
    ensures Linked(d, Pushed(d, m, cell, xs, k, b), Inserted(xs, k, b), i)
  {
    hide Chain, Spread, Pushed, Inserted, Linked, Joins;
    var j := if i < k then i else i - 1;
    JoinsAt(d, m, xs, k, b);
    InsertedLinks(d, xs, k, b, i);
    if i == k {
      ChainInHeap(d, m, cell, xs, k);
      ChainWords(d, m, cell, xs);
      JoinsAway(d, m, xs, k, b, k - 1);
      JoinsAway(d, m, xs, k, b, k);
      PushedHere(d, m, cell, xs, k, b);
      LinkedFrom(d, Pushed(d, m, cell, xs, k, b), Inserted(xs, k, b), i, b);
    } else {
      ChainLinked(d, m, cell, xs, j);
      ChainWords(d, m, cell, xs);
      ChainAway(d, m, cell, xs, j, k - 1);
      ChainAway(d, m, cell, xs, j, k);
      JoinsAway(d, m, xs, k, b, j);
      PushedAt(d, m, cell, xs, k, b, j);
      LinkedFrom(d, Pushed(d, m, cell, xs, k, b), Inserted(xs, k, b), i, xs[j]);
    }
  }

  lemma ChainWords(d: Design, m: seq<int>, cell: int, xs: seq<Block>)
    requires Chain(d, m, cell, xs)
    ensures 0 <= cell && Aligned(cell) && cell + 4 <= LISTS_END <= |m|
  {
  }

  lemma JoinsAway(d: Design, m: seq<int>, xs: seq<Block>, k: nat, b: Block, i: int)
    requires Joins(d, m, xs, k, b)
    ensures 0 <= i < |xs| ==> Away(xs[i], b)
  {
  }

  lemma PushedHere(d: Design, m: seq<int>, cell: int, xs: seq<Block>, k: nat, b: Block)
    requires k <= |xs| && 0 <= cell && cell + 4 <= LISTS_END <= |m| && InHeap(m, b) && b.size % 8 == 0 && m[b.addr - 4] == TagWord(d, b)
    requires (k > 0 ==> InHeap(m, xs[k - 1]) && Away(xs[k - 1], b)) && (k < |xs| ==> InHeap(m, xs[k]) && Away(xs[k], b))
    ensures LinkedAt(d, Pushed(d, m, cell, xs, k, b), b,
      if k == 0 then NULL else Ptr(d, xs[k - 1]), if k < |xs| then Ptr(d, xs[k]) else NULL)
  {
  }

  /** The words of block `j` after `b` has come to position `k`. */
  lemma PushedAt(d: Design, m: seq<int>, cell: int, xs: seq<Block>, k: nat, b: Block, j: nat)
    requires k <= |xs| && j < |xs| && 0 <= cell && cell + 4 <= LISTS_END <= |m| && InHeap(m, b) && Away(xs[j], b)
    requires (k > 0 ==> InHeap(m, xs[k - 1])) && (k < |xs| ==> InHeap(m, xs[k]))
    requires LinkedAt(d, m, xs[j], PredOf(d, xs, j), SuccOf(d, xs, j))
    requires k > 0 && j != k - 1 ==> Away(xs[j], xs[k - 1])
    requires k < |xs| && j != k ==> Away(xs[j], xs[k])
    ensures LinkedAt(d, Pushed(d, m, cell, xs, k, b), xs[j],
      if j == k then Ptr(d, b) else PredOf(d, xs, j), if j + 1 == k then Ptr(d, b) else SuccOf(d, xs, j))
  {
    hide PredOf, SuccOf;
  }

  lemma JoinsAt(d: Design, m: seq<int>, xs: seq<Block>, k: nat, b: Block)
    requires Joins(d, m, xs, k, b)
    ensures k <= |xs| && LISTS_END + 8 <= b.addr && b.addr + 8 <= |m| && Boundary(b.addr) && b.size % 8 == 0 && m[b.addr - 4] == TagWord(d, b)
  {
  }

  /** The neighbours after one block has come. */
  lemma InsertedLinks(d: Design, xs: seq<Block>, k: nat, b: Block, i: nat)
    requires k <= |xs| && i <= |xs|
    ensures |Inserted(xs, k, b)| == |xs| + 1
    ensures var ys, j := Inserted(xs, k, b), if i < k then i else i - 1;
      if i == k then
        && ys[i] == b && PredOf(d, ys, i) == (if k == 0 then NULL else Ptr(d, xs[k - 1]))
        && SuccOf(d, ys, i) == (if k < |xs| then Ptr(d, xs[k]) else NULL)
      else
        && ys[i] == xs[j]
        && PredOf(d, ys, i) == (if j == k then Ptr(d, b) else PredOf(d, xs, j))
        && SuccOf(d, ys, i) == (if j + 1 == k then Ptr(d, b) else SuccOf(d, xs, j))
  {
  }
}
