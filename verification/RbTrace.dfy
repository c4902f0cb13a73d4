/** Any client of `mm_rbtree_ref.c` sees independent buffers, and freeing all of them restores the empty heap. */
module RbTrace {
  import opened Common
  import opened Memlib
  import opened Blocks
  import opened RbHeap
  import opened RbAlloc
  import opened Trace

  function Payload(b: Block): Buffer {
    Buffer(b.addr + HEADER, b.size - HEADER)
  }

  ghost function Live(bs: seq<Block>): set<Buffer> {
    set b | b in bs && !b.free :: Payload(b)
  }

  lemma LiveBlock(bs: seq<Block>, u: Buffer) returns (b: Block)
    requires u in Live(bs)
    ensures b in bs && !b.free && Payload(b) == u
  {
    b :| b in bs && !b.free && Payload(b) == u;
  }

  /** A block is live exactly if its payload is a buffer. */
  lemma LiveIs(bs: seq<Block>, b: Block)
    requires !b.free
    ensures b in bs <==> Payload(b) in Live(bs)
  {
    if Payload(b) in Live(bs) {
      var c := LiveBlock(bs, Payload(b));
      assert c == b;
    }
  }

  /** The contracts of the allocator, in terms of buffers. */
  lemma PreservedKept(m: seq<int>, m': seq<int>, bs: seq<Block>, bs': seq<Block>, gone: set<int>, dead: set<Buffer>)
    requires Preserved(m, m', bs, bs', gone) && forall b :: b in bs && !b.free && b.addr in gone ==> Payload(b) in dead
    ensures Retained(m, m', Live(bs), Live(bs'), dead)
  {
    hide Live;
    forall u | u in Live(bs) && u !in dead ensures u in Live(bs') && SameBytes(m, m', u) {
      var b := LiveBlock(bs, u);
      assert SameBlock(m, m', b);
      LiveIs(bs', b);
    }
  }

  lemma StoreKept(m: seq<int>, m': seq<int>, bs: seq<Block>, b: Block)
    requires forall c :: c in bs && c != b ==> SameBlock(m, m', c)
    ensures Retained(m, m', Live(bs), Live(bs), {Payload(b)})
  {
    hide Live;
    forall u | u in Live(bs) && u != Payload(b) ensures SameBytes(m, m', u) {
      var c := LiveBlock(bs, u);
      assert SameBlock(m, m', c);
    }
  }

  lemma LiveSeparate(a: Allocator)
    requires a.Valid()
    ensures Separate(Live(a.blocks), a.heap.brk)
  {
    hide Live, HeapInv;
    var m, bs := a.heap.Mem(), a.blocks;
    forall u | u in Live(bs) ensures u.start % 8 == 0 && 0 < u.start && u.start + u.room <= |m| {
      var b := LiveBlock(bs, u);
      Payloads(m, bs, a.nodes, a.tree, b, b);
    }
    forall u, v | u in Live(bs) && v in Live(bs) && u != v
      ensures u.start + u.room <= v.start || v.start + v.room <= u.start
    {
      var b := LiveBlock(bs, u);
      var c := LiveBlock(bs, v);
      Payloads(m, bs, a.nodes, a.tree, b, c);
    }
  }

  lemma ValidTiles(a: Allocator)
    requires a.Valid()
    ensures FIRST <= End(a.heap.Mem()) && WellFormed(a.blocks, FIRST, End(a.heap.Mem()), LEAST)
    ensures Tiles(a.blocks, FIRST, End(a.heap.Mem()))
  {
    TilesBounds(a.blocks, FIRST, End(a.heap.Mem()));
  }

  /** A block that `mm_malloc` allocates was not allocated before. */
  lemma Fresh(bs: seq<Block>, k: nat, need: int, from: int, to: int, b: Block)
    requires Tiles(bs, from, to) && !b.free && b.size >= 8
    requires (k < |bs| && bs[k].free && b.addr == bs[k].addr) || b.addr == GrowStart(bs, to)
    ensures b !in bs
  {
    hide Tiles;
    if b in bs {
      BlocksApart(bs, b, b, from, to);
      var f := if EndsFree(bs) && b.addr == GrowStart(bs, to) then bs[|bs| - 1] else if k < |bs| then bs[k] else b;
      if f in bs {
        BlocksApart(bs, b, f, from, to);
        BlocksApart(bs, f, b, from, to);
      }
      assert false;
    }
  }

  /** `mm_malloc` does not check whether the heap could grow, so the client does. */
  lemma EnoughRoom(a: Allocator, size: nat)
    requires a.Valid() && size < TWO32 && a.heap.brk + BlockSize(size) <= a.heap.cells.Length
    ensures a.Room(size)
  {
    ValidTiles(a);
    var bs := a.blocks;
    if EndsFree(bs) {
      TileAt(bs, |bs| - 1, FIRST, End(a.heap.Mem()));
    }
  }

  /** When a request is passed on to `mm_malloc`. */
  ghost predicate Serves(v: View, size: int, limit: int) {
    0 <= size <= TWO32 - 16 && v.brk + BlockSize(size) <= limit
  }

  /** The size of a free last block. */
  function LastFree(bs: seq<Block>): nat {
    if bs != [] && bs[|bs| - 1].free && bs[|bs| - 1].size >= 0 then bs[|bs| - 1].size else 0
  }

  /** The best fit is used; without one the heap grows by what a free last block does not cover. */
  ghost predicate Places(v: View, v': View, id: nat, size: int) {
    var need := BlockSize(size);
    if SomeFit(v.blocks, need) then
      && v'.brk == v.brk
      && exists k: nat :: k < |v.blocks| && BestBlock(v.blocks, k, need) && v'.blocks == Carve(v.blocks, k, need)
           && v'.at == v.at[id := v.blocks[k].addr + HEADER]
    else
      && v'.brk == v.brk + need - LastFree(v.blocks)
      && v'.blocks == Grow(v.blocks, v.brk - 4, need) && v'.at == v.at[id := GrowStart(v.blocks, v.brk - 4) + HEADER]
  }

  ghost predicate Step(v: View, v': View, op: Op, ok: bool, limit: int) {
    var sized := op.Alloc? || op.Resize?;
    Moves(v, v', op, ok, sized && Serves(v, op.size, limit), sized && Places(v, v', op.id, op.size), HEADER)
  }

  ghost predicate Steps(views: seq<View>, ops: seq<Op>, ok: seq<bool>, limit: int) {
    && |views| == |ops| + 1 && |ok| == |ops|
    && forall i :: 0 <= i < |ops| ==> Step(views[i], views[i + 1], ops[i], ok[i], limit)
  }

  /** By how much an operation may grow the heap. */
  function Growth(op: Op): nat {
    if op.Alloc? && op.size <= TWO32 - 16 then BlockSize(op.size) else 0
  }

  lemma StepGrows(v: View, v': View, op: Op, ok: bool, limit: int)
    requires Step(v, v', op, ok, limit) && !op.Resize?
    ensures v'.brk <= v.brk + Growth(op)
    ensures Asks(v.ideal, op) && op.size <= TWO32 - 16 && v.brk + Growth(op) <= limit ==> ok
  {
  }

  /** If the heap may still grow by all that a run can ask for, no request is refused. */
  lemma NeverRefused(views: seq<View>, ops: seq<Op>, ok: seq<bool>, limit: int, i: nat)
    requires Steps(views, ops, ok, limit) && (forall op :: op in ops ==> !op.Resize?) && i < |ops|
    requires views[0].brk + Total(ops, Growth) <= limit
    ensures Asks(views[i].ideal, ops[i]) && ops[i].size <= TWO32 - 16 ==> ok[i]
  {
    hide Step, Growth;
    forall j | 0 <= j < |ops| ensures views[j + 1].brk <= views[j].brk + Growth(ops[j]) {
      StepGrows(views[j], views[j + 1], ops[j], ok[j], limit);
    }
    BreakUpto(views, ops, Growth, i);
    TotalUpto(ops, Growth, i);
    StepGrows(views[i], views[i + 1], ops[i], ok[i], limit);
  }

  lemma StepsNext(views: seq<View>, ops: seq<Op>, ok: seq<bool>, limit: int, v: View, op: Op, done: bool)
    requires Steps(views, ops, ok, limit) && Step(views[|ops|], v, op, done, limit)
    ensures Steps(views + [v], ops + [op], ok + [done], limit)
  {
    hide Step;
    forall i | 0 <= i < |ops + [op]|
      ensures Step((views + [v])[i], (views + [v])[i + 1], (ops + [op])[i], (ok + [done])[i], limit)
    {
      if i < |ops| {
        assert Step(views[i], views[i + 1], ops[i], ok[i], limit);
      }
    }
  }

  /** The client asks for a buffer. */
  method Request(a: Allocator, op: Op, at: map<nat, int>, ghost own: map<nat, Buffer>, s: Ideal)
    returns (at': map<nat, int>, ghost own': map<nat, Buffer>, ok: bool)
    requires a.Valid() && Agrees(a.heap.Mem(), Live(a.blocks), at, own, s) && op.Alloc?
    modifies a, a.heap`brk, a.heap.cells
    ensures a.Valid() && Agrees(a.heap.Mem(), Live(a.blocks), at', own', Apply(s, op, ok))
    ensures Step(old(View(a.blocks, a.heap.brk, at, s)), View(a.blocks, a.heap.brk, at', Apply(s, op, ok)), op, ok, a.heap.cells.Length)
  {
    hide Agrees, Preserved, HeapInv, SomeFit, Retained, Live, Carve, Grow, BestBlock, BlockSize, Owns, Moves, Places, Apply, Release,
      LeastSize;
    ghost var m, bs := a.heap.Mem(), a.blocks;
    ghost var v, limit := View(bs, a.heap.brk, at, s), a.heap.cells.Length;
    at', own', ok := at, own, false;
    var id, size := op.id, op.size;
    SameIds(m, Live(bs), at, own, s);
    if id !in s.asked && size <= TWO32 - 16 && a.heap.brk + BlockSize(size) <= a.heap.cells.Length {
      EnoughRoom(a, size);
      ValidTiles(a);
      var p;
      ghost var k;
      p, k := a.Malloc(size);
      ghost var b := Block(p - HEADER, BlockSize(size), false);
      FreshHere(bs, k, size, |m| - 4, p);
      LastFreeIs(bs, FIRST, |m| - 4);
      LiveIs(bs, b);
      LiveIs(a.blocks, b);
      PreservedKept(m, a.heap.Mem(), bs, a.blocks, {}, {});
      RoomFor(Live(a.blocks), b, size);
      Allocated(m, a.heap.Mem(), Live(bs), Live(a.blocks), at, own, s, id, size, Payload(b));
      ghost var v' := View(a.blocks, a.heap.brk, at[id := p], Apply(s, op, true));
      PlacesHere(v, v', id, size, k);
      ServedMoves(v, v', op, HEADER);
      return at[id := p], own[id := Payload(b)], true;
    }
    RefusedMoves(v, v.(ideal := Apply(s, op, ok)), op, Serves(v, size, limit), Places(v, v.(ideal := Apply(s, op, ok)), id, size), HEADER);
    ApplyRefused(s, op);
  }

  /** One operation of the client on the real heap. */
  method Perform(a: Allocator, op: Op, at: map<nat, int>, ghost own: map<nat, Buffer>, s: Ideal)
    returns (at': map<nat, int>, ghost own': map<nat, Buffer>, ok: bool)
    requires a.Valid() && Agrees(a.heap.Mem(), Live(a.blocks), at, own, s) && !op.Resize?
    modifies a, a.heap`brk, a.heap.cells
    ensures a.Valid() && Agrees(a.heap.Mem(), Live(a.blocks), at', own', Apply(s, op, ok))
    ensures Step(old(View(a.blocks, a.heap.brk, at, s)), View(a.blocks, a.heap.brk, at', Apply(s, op, ok)), op, ok, a.heap.cells.Length)
  {
    hide Agrees, Preserved, HeapInv, SomeFit, Retained, Live, Carve, Grow, BestBlock, BlockSize, Owns, Moves, Places, Apply, Release,
      LeastSize;
    ghost var m, bs := a.heap.Mem(), a.blocks;
    ghost var v, limit := View(bs, a.heap.brk, at, s), a.heap.cells.Length;
    at', own', ok := at, own, true;
    match op {
      case Alloc(_, _) => at', own', ok := Request(a, op, at, own, s);
      case Write(id, offset, w) =>
        ok := WriteFits(s, op);
        WriteMoves(v, v.(ideal := Apply(s, op, ok)), op, ok, false, false, HEADER);
        if !ok {
          ApplyNoWrite(s, op);
        } else {
          OwnerOf(m, Live(bs), at, own, s, id);
          ghost var b := OwnBlock(bs, own[id], at[id], s.asked[id]);
          WriteReady(a, b, s.asked[id], offset);
          a.Store(at[id] + offset, w, b);
          StoreKept(m, a.heap.Mem(), bs, b);
          Written(m, Live(bs), at, own, s, op);
        }
      case Free(id) =>
        if id in s.asked {
          OwnerOf(m, Live(bs), at, own, s, id);
          ghost var b := OwnBlock(bs, own[id], at[id], s.asked[id]);
          ValidTiles(a);
          OneHere(bs, FIRST, |m| - 4, b);
          a.Free(at[id]);
          PreservedKept(m, a.heap.Mem(), bs, a.blocks, {b.addr}, {own[id]});
          Dropped(m, a.heap.Mem(), Live(bs), Live(a.blocks), at, own, s, id);
          FreeMoves(v, View(a.blocks, a.heap.brk, at - {id}, Apply(s, op, true)), op, false, false, HEADER, IndexOf(bs, at[id] - HEADER));
          return at - {id}, own - {id}, true;
        }
        ok := false;
        NoFreeMoves(v, v.(ideal := Apply(s, op, ok)), op, false, false, HEADER);
        ApplyNoFree(s, op);
    }
  }

  lemma LastFreeIs(bs: seq<Block>, from: int, to: int)
    requires Tiles(bs, from, to)
    ensures LastFree(bs) == if bs != [] && bs[|bs| - 1].free then bs[|bs| - 1].size else 0
  {
    if bs != [] {
      TileAt(bs, |bs| - 1, from, to);
    }
  }

  lemma PlacesHere(v: View, v': View, id: nat, size: int, k: nat)
    requires var need := BlockSize(size);
      if SomeFit(v.blocks, need) then
        && v'.brk == v.brk && BestBlock(v.blocks, k, need) && v'.blocks == Carve(v.blocks, k, need)
        && v'.at == v.at[id := v.blocks[k].addr + HEADER]
      else
        && v'.brk == v.brk + need - LastFree(v.blocks)
        && v'.blocks == Grow(v.blocks, v.brk - 4, need) && v'.at == v.at[id := GrowStart(v.blocks, v.brk - 4) + HEADER]
    ensures Places(v, v', id, size)
  {
  }

  lemma FreshHere(bs: seq<Block>, k: nat, size: nat, to: int, p: int)
    requires Tiles(bs, FIRST, to) && size <= TWO32 - 16
    requires if SomeFit(bs, BlockSize(size)) then BestBlock(bs, k, BlockSize(size)) && p == bs[k].addr + HEADER
      else p == GrowStart(bs, to) + HEADER
    ensures Block(p - HEADER, BlockSize(size), false) !in bs
  {
    BlockSizeFits(size);
    hide BlockSize, Tiles;
    Fresh(bs, k, BlockSize(size), FIRST, to, Block(p - HEADER, BlockSize(size), false));
  }

  lemma RoomFor(us: set<Buffer>, b: Block, size: nat)
    requires size <= TWO32 - 16 && b.size == BlockSize(size) && Payload(b) in us
    ensures Owns(us, Payload(b), b.addr + HEADER, size)
  {
    BlockSizeFits(size);
  }

  lemma OwnBlock(bs: seq<Block>, u: Buffer, p: int, size: nat) returns (b: Block)
    requires Owns(Live(bs), u, p, size)
    ensures b in bs && !b.free && Payload(b) == u && b.addr + HEADER == p && size + HEADER <= b.size
  {
    hide Live;
    b := LiveBlock(bs, u);
  }

  /** A write that fits into a buffer stays inside the payload of its block. */
  lemma WriteReady(a: Allocator, b: Block, size: nat, offset: nat)
    requires a.Valid() && b in a.blocks && size + HEADER <= b.size && offset + 4 <= size && offset % 4 == 0
    ensures Aligned(b.addr + HEADER + offset) && 0 <= b.addr + HEADER + offset < a.heap.brk
  {
    hide HeapInv;
    Payloads(a.heap.Mem(), a.blocks, a.nodes, a.tree, b, b);
    WordInside(b.addr + HEADER, offset);
  }

  lemma WordInside(a: int, offset: nat)
    requires a % 8 == 0 && offset % 4 == 0
    ensures Aligned(a + offset)
  {
  }

  /** Two blocks do not start at the same address. */
  lemma OneHere(bs: seq<Block>, from: int, to: int, b: Block)
    requires Tiles(bs, from, to) && b in bs
    ensures bs[IndexOf(bs, b.addr)] == b
    ensures forall c :: c in bs && c.addr == b.addr ==> c == b
  {
    hide Tiles;
    forall c | c in bs && c.addr == b.addr ensures c == b {
      BlocksApart(bs, b, c, from, to);
      BlocksApart(bs, c, b, from, to);
    }
  }

  /** Replay a whole run. `views` shows the heap before, between and after the operations, `ok` which of them succeeded. */
  method Replay(a: Allocator, ops: seq<Op>)
    returns (at: map<nat, int>, ghost own: map<nat, Buffer>, ok: seq<bool>, ghost views: seq<View>)
    requires a.Valid() && forall op :: op in ops ==> !op.Resize?
    modifies a, a.heap`brk, a.heap.cells
    ensures a.Valid() && Steps(views, ops, ok, a.heap.cells.Length)
    ensures views[0] == old(View(a.blocks, a.heap.brk, map[], Ideal(map[], map[])))
    ensures views[|ops|] == View(a.blocks, a.heap.brk, at, ApplyAll(ops, ok))
    ensures Agrees(a.heap.Mem(), Live(a.blocks), at, own, ApplyAll(ops, ok)) && Separate(Live(a.blocks), a.heap.brk)
  {
    hide Agrees, Apply, ApplyAll, Live, Separate, Step, HeapInv;
    at, own, ok := map[], map[], [];
    var s := Ideal(map[], map[]);
    views := [View(a.blocks, a.heap.brk, at, s)];
    Nothing(a.heap.Mem(), Live(a.blocks));
    ApplyNone(ops);
    for i := 0 to |ops|
      invariant a.Valid() && Steps(views, ops[..i], ok, a.heap.cells.Length) && s == ApplyAll(ops[..i], ok)
      invariant views[0] == old(View(a.blocks, a.heap.brk, map[], Ideal(map[], map[])))
      invariant views[i] == View(a.blocks, a.heap.brk, at, s)
      invariant Agrees(a.heap.Mem(), Live(a.blocks), at, own, s)
    {
      var done;
      ghost var v := views[i];
      at, own, done := Perform(a, ops[i], at, own, s);
      ApplyNext(ops, ok, i, done);
      s := Apply(s, ops[i], done);
      ghost var v' := View(a.blocks, a.heap.brk, at, s);
      StepsNext(views, ops[..i], ok, a.heap.cells.Length, v', ops[i], done);
      assert ops[..i] + [ops[i]] == ops[..i + 1];
      views := views + [v'];
      ok := ok + [done];
    }
    assert ops[..|ops|] == ops;
    LiveSeparate(a);
  }

  /** Free all allocated blocks, in any order: one free block remains, or none. */
  method FreeAll(a: Allocator, ptrs: seq<int>)
    requires a.Valid() && Pointers(ptrs, a.blocks, HEADER) && forall i, j :: 0 <= i < j < |ptrs| ==> ptrs[i] != ptrs[j]
    modifies a, a.heap.cells
    ensures a.Valid() && a.heap.brk == old(a.heap.brk)
    ensures var end := a.heap.brk - 4; a.blocks == if end == FIRST then [] else [Block(FIRST, end - FIRST, true)]
  {
    hide HeapInv, Release, Tiles, WellFormed, Pointers, Preserved;
    for i := 0 to |ptrs|
      invariant a.Valid() && a.heap.brk == old(a.heap.brk) && Pointers(ptrs[i..], a.blocks, HEADER)
    {
      ghost var bs := a.blocks;
      ghost var b := PointerBlock(ptrs[i..], bs, HEADER);
      ValidTiles(a);
      OneHere(bs, FIRST, a.heap.brk - 4, b);
      a.Free(ptrs[i]);
      PointersReleased(ptrs[i..], bs, HEADER, IndexOf(bs, b.addr), FIRST, a.heap.brk - 4);
      assert ptrs[i..][1..] == ptrs[i + 1..];
    }
    ValidTiles(a);
    NoPointers(a.blocks, HEADER, FIRST, a.heap.brk - 4, LEAST);
  }
}
