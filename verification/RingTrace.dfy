/** Any client of `mm_explicit_ref.c` sees independent buffers, and freeing all of them restores the empty heap. */
module RingTrace {
  import opened Common
  import opened Blocks
  import opened Fits
  import opened Tags
  import opened RingHeap
  import opened RingAlloc
  import opened Trace
  import opened TagTrace

  /** When `mm_malloc` and `mm_realloc` serve a request. */
  ghost predicate Serves(v: View, size: int, limit: int) {
    0 < size <= LARGEST && (SomeFit(v.blocks, Adjusted(size)) || v.brk + Max(Adjusted(size), 4096) <= limit)
  }

  /** The low end of a sufficient block is used, of the old heap or else of the grown one; `blocks` is the result. */
  ghost predicate Takes(v: View, blocks: seq<Block>, brk: int, size: int, p: int) {
    var need := Adjusted(size);
    var base := Supply(v.blocks, v.brk, need);
    && brk == v.brk + (if SomeFit(v.blocks, need) then 0 else Max(need, 4096))
    && exists k: nat :: k < |base| && base[k].free && base[k].size >= need && blocks == Place(base, k, need, true) && p == base[k].addr
  }

  /** The block at `a` has been freed. */
  ghost predicate Freeing(bs: seq<Block>, a: int, rs: seq<Block>) {
    (exists b :: b in bs && b.addr == a) && rs == Release(bs, IndexOf(bs, a))
  }

  /** Resizing takes a new block and then frees the old one. */
  ghost predicate Places(v: View, v': View, op: Op)
    requires op.Alloc? || op.Resize?
  {
    exists blocks: seq<Block>, p: int {:trigger Takes(v, blocks, v'.brk, op.size, p)} ::
      && Takes(v, blocks, v'.brk, op.size, p) && v'.at == v.at[op.id := p]
      && if op.Alloc? then v'.blocks == blocks else op.id in v.at && Freeing(blocks, v.at[op.id], v'.blocks)
  }

  ghost predicate Step(v: View, v': View, op: Op, ok: bool, limit: int) {
    var sized := op.Alloc? || op.Resize?;
    Moves(v, v', op, ok, sized && Serves(v, op.size, limit), sized && Places(v, v', op), 0)
  }

  ghost predicate Steps(views: seq<View>, ops: seq<Op>, ok: seq<bool>, limit: int) {
    && |views| == |ops| + 1 && |ok| == |ops|
    && forall i :: 0 <= i < |ops| ==> Step(views[i], views[i + 1], ops[i], ok[i], limit)
  }

  /** By how much an operation may grow the heap. */
  function Growth(op: Op): nat {
    if (op.Alloc? || op.Resize?) && 0 < op.size <= LARGEST then Max(Adjusted(op.size), 4096) else 0
  }

  lemma StepGrows(v: View, v': View, op: Op, ok: bool, limit: int)
    requires Step(v, v', op, ok, limit)
    ensures v'.brk <= v.brk + Growth(op)
    ensures Asks(v.ideal, op) && 0 < op.size <= LARGEST && v.brk + Growth(op) <= limit ==> ok
  {
  }

  /** If the heap may still grow by all that a run can ask for, no request is refused. */
  lemma NeverRefused(views: seq<View>, ops: seq<Op>, ok: seq<bool>, limit: int, i: nat)
    requires Steps(views, ops, ok, limit) && i < |ops| && views[0].brk + Total(ops, Growth) <= limit
    ensures Asks(views[i].ideal, ops[i]) && 0 < ops[i].size <= LARGEST ==> ok[i]
  {
    hide Step, Growth;
    forall j | 0 <= j < |ops| ensures views[j + 1].brk <= views[j].brk + Growth(ops[j]) {
      StepGrows(views[j], views[j + 1], ops[j], ok[j], limit);
    }
    BreakUpto(views, ops, Growth, i);
    TotalUpto(ops, Growth, i);
    StepGrows(views[i], views[i + 1], ops[i], ok[i], limit);
  }

  lemma StepsNext(views: seq<View>, ops: seq<Op>, ok: seq<bool>, limit: int, v: View, op: Op, done: bool)
    requires Steps(views, ops, ok, limit) && Step(views[|ops|], v, op, done, limit)
    ensures Steps(views + [v], ops + [op], ok + [done], limit)
  {
    hide Step;
    forall i | 0 <= i < |ops + [op]|
      ensures Step((views + [v])[i], (views + [v])[i + 1], (ops + [op])[i], (ok + [done])[i], limit)
    {
      if i < |ops| {
        assert Step(views[i], views[i + 1], ops[i], ok[i], limit);
      }
    }
  }

  /** The client asks for a new size of a buffer. */
  method Resizing(a: RingAllocator, op: Op, at: map<nat, int>, ghost own: map<nat, Buffer>, s: Ideal)
    returns (at': map<nat, int>, ghost own': map<nat, Buffer>, ok: bool)
    requires a.Valid() && Agrees(a.heap.Mem(), Live(a.blocks), at, own, s) && op.Resize?
    modifies a, a.heap`brk, a.heap.cells
    ensures a.Valid() && Agrees(a.heap.Mem(), Live(a.blocks), at', own', Apply(s, op, ok))
    ensures Step(old(View(a.blocks, a.heap.brk, at, s)), View(a.blocks, a.heap.brk, at', Apply(s, op, ok)), op, ok, a.heap.cells.Length)
  {
    hide Agrees, Preserved, RingInv, Settled, SomeFit, Retained, Live, Placed, Supply, Place, Smallest, Moved, Moving, Copied, Adjusted,
      Moves, Takes, Places, Apply, Release, LeastSize, Max, RingAfter, RingTaken, RingSupply, FirstFit;
    ghost var m, bs := a.heap.Mem(), a.blocks;
    ghost var v, limit := View(bs, a.heap.brk, at, s), a.heap.cells.Length;
    at', own', ok := at, own, false;
    var id, size := op.id, op.size;
    if id in s.asked && size <= LARGEST {
      OwnerOf(m, Live(bs), at, own, s, id);
      ghost var o := LiveBlock(bs, own[id]);
      FreedBlock(m, bs, a.ring, o);
      var p;
      ghost var k;
      p, k := a.Realloc(at[id], size);
      if p != NULL {
        ghost var base := old(Supply(a.blocks, a.heap.brk, Adjusted(size)));
        ghost var n := Placed(base[k], Adjusted(size), true);
        RoomFor(base, k, size);
        LiveIs(bs, n);
        LiveIs(a.blocks, n);
        MovedKept(m, a.heap.Mem(), bs, a.blocks, o, n, size);
        Resized(m, a.heap.Mem(), Live(bs), Live(a.blocks), at, own, s, id, size, Payload(n));
        ghost var v' := View(a.blocks, a.heap.brk, at[id := p], Apply(s, op, true));
        TakesHere(v, v', op, Place(base, k, Adjusted(size), true), p, k);
        ServedMoves(v, v', op, 0);
        return at[id := p], own[id := Payload(n)], true;
      }
      Unchanged(m, a.heap.Mem(), Live(bs), Live(a.blocks), at, own, s);
    }
    RefusedMoves(v, v.(ideal := Apply(s, op, ok)), op, Serves(v, size, limit), Places(v, v.(ideal := Apply(s, op, ok)), op), 0);
    ApplyRefused(s, op);
  }

  /** One operation of the client on the real heap. */
  method Perform(a: RingAllocator, op: Op, at: map<nat, int>, ghost own: map<nat, Buffer>, s: Ideal)
    returns (at': map<nat, int>, ghost own': map<nat, Buffer>, ok: bool)
    requires a.Valid() && Agrees(a.heap.Mem(), Live(a.blocks), at, own, s)
    modifies a, a.heap`brk, a.heap.cells
    ensures a.Valid() && Agrees(a.heap.Mem(), Live(a.blocks), at', own', Apply(s, op, ok))
    ensures Step(old(View(a.blocks, a.heap.brk, at, s)), View(a.blocks, a.heap.brk, at', Apply(s, op, ok)), op, ok, a.heap.cells.Length)
  {
    hide Agrees, Preserved, RingInv, Settled, SomeFit, Retained, Live, Placed, Supply, Place, Smallest, Moved, Moving, Copied, Adjusted,
      Moves, Takes, Places, Apply, Release, LeastSize, Max, RingAfter, RingTaken, RingSupply, FirstFit;
    ghost var m, bs := a.heap.Mem(), a.blocks;
    ghost var v, limit := View(bs, a.heap.brk, at, s), a.heap.cells.Length;
    at', own', ok := at, own, true;
    match op {
      case Alloc(id, size) =>
        SameIds(m, Live(bs), at, own, s);
        if id !in s.asked && size <= LARGEST {
          var p;
          ghost var k;
          p, k := a.Malloc(size);
          if p != NULL {
            ghost var base := old(Supply(a.blocks, a.heap.brk, Adjusted(size)));
            ghost var b := Placed(base[k], Adjusted(size), true);
            RoomFor(base, k, size);
            LiveIs(bs, b);
            LiveIs(a.blocks, b);
            PreservedKept(m, a.heap.Mem(), bs, a.blocks, {}, {});
            Allocated(m, a.heap.Mem(), Live(bs), Live(a.blocks), at, own, s, id, size, Payload(b));
            ghost var v' := View(a.blocks, a.heap.brk, at[id := p], Apply(s, op, true));
            TakesHere(v, v', op, a.blocks, p, k);
            ServedMoves(v, v', op, 0);
            return at[id := p], own[id := Payload(b)], true;
          }
          Unchanged(m, a.heap.Mem(), Live(bs), Live(a.blocks), at, own, s);
        }
        ok := false;
        RefusedMoves(v, v.(ideal := Apply(s, op, ok)), op, Serves(v, size, limit), Places(v, v.(ideal := Apply(s, op, ok)), op), 0);
        ApplyRefused(s, op);
      case Write(id, offset, w) =>
        ok := WriteFits(s, op);
        WriteMoves(v, v.(ideal := Apply(s, op, ok)), op, ok, false, false, 0);
        if !ok {
          ApplyNoWrite(s, op);
        } else {
          OwnerOf(m, Live(bs), at, own, s, id);
          ghost var b := LiveBlock(bs, own[id]);
          SettledWellFormed(m, bs, a.ring);
          WriteReady(Ring, m, bs, b, s.asked[id], offset);
          a.Store(at[id] + offset, w, b);
          PreservedKept(m, a.heap.Mem(), bs, bs, {b}, {own[id]});
          Written(m, Live(bs), at, own, s, op);
        }
      case Free(id) =>
        if id in s.asked {
          OwnerOf(m, Live(bs), at, own, s, id);
          ghost var b := LiveBlock(bs, own[id]);
          FreedBlock(m, bs, a.ring, b);
          a.Free(at[id]);
          PreservedKept(m, a.heap.Mem(), bs, a.blocks, {b}, {own[id]});
          Dropped(m, a.heap.Mem(), Live(bs), Live(a.blocks), at, own, s, id);
          FreeMoves(v, View(a.blocks, a.heap.brk, at - {id}, Apply(s, op, true)), op, false, false, 0, IndexOf(bs, at[id]));
          return at - {id}, own - {id}, true;
        }
        ok := false;
        NoFreeMoves(v, v.(ideal := Apply(s, op, ok)), op, false, false, 0);
        ApplyNoFree(s, op);
      case Resize(_, _) => at', own', ok := Resizing(a, op, at, own, s);
    }
  }

  lemma TakesHere(v: View, v': View, op: Op, blocks: seq<Block>, p: int, k: nat)
    requires op.Alloc? || op.Resize?
    requires var need, base := Adjusted(op.size), Supply(v.blocks, v.brk, Adjusted(op.size));
      && k < |base| && base[k].free && base[k].size >= need && blocks == Place(base, k, need, true) && p == base[k].addr
      && v'.brk == v.brk + (if SomeFit(v.blocks, need) then 0 else Max(need, 4096)) && v'.at == v.at[op.id := p]
    requires op.Alloc? ==> v'.blocks == blocks
    requires op.Resize? ==> op.id in v.at && Freeing(blocks, v.at[op.id], v'.blocks)
    ensures Places(v, v', op)
  {
    assert Takes(v, blocks, v'.brk, op.size, p);
  }

  /** What `mm_realloc` promises, in terms of buffers. */
  lemma MovedKept(m: seq<int>, m': seq<int>, bs: seq<Block>, bs': seq<Block>, o: Block, n: Block, size: nat)
    requires Moved(m, m', bs, bs', o, n, Moving(o, size)) && n !in bs && !n.free
    ensures Retained(m, m', Live(bs), Live(bs'), {Payload(o)}) && n in bs'
    ensures var c := if size < Payload(o).room then size else Payload(o).room; Copied(m, m', Payload(o), Payload(n), c)
  {
    hide Live, SamePayload;
    PreservedKept(m, m', bs, bs', {o}, {Payload(o)});
  }

  lemma RoomFor(base: seq<Block>, k: nat, size: nat)
    requires k < |base| && base[k].size >= Adjusted(size) && 0 < size <= LARGEST
    ensures var b := Placed(base[k], Adjusted(size), true); !b.free && Owns({Payload(b)}, Payload(b), b.addr, size) && b.addr == base[k].addr
  {
    AdjustedFits(size);
  }

  lemma FreedBlock(m: seq<int>, bs: seq<Block>, xs: seq<Block>, b: Block)
    requires Settled(m, bs, xs) && b in bs
    ensures bs[IndexOf(bs, b.addr)] == b
  {
    SettledWellFormed(m, bs, xs);
    OneAtAddress(bs, BASE, |m|, b);
  }

  /** Replay a whole run. `views` shows the heap before, between and after the operations, `ok` which of them succeeded. */
  method Replay(a: RingAllocator, ops: seq<Op>)
    returns (at: map<nat, int>, ghost own: map<nat, Buffer>, ok: seq<bool>, ghost views: seq<View>)
    requires a.Valid()
    modifies a, a.heap`brk, a.heap.cells
    ensures a.Valid() && Steps(views, ops, ok, a.heap.cells.Length)
    ensures views[0] == old(View(a.blocks, a.heap.brk, map[], Ideal(map[], map[])))
    ensures views[|ops|] == View(a.blocks, a.heap.brk, at, ApplyAll(ops, ok))
    ensures Agrees(a.heap.Mem(), Live(a.blocks), at, own, ApplyAll(ops, ok)) && Separate(Live(a.blocks), a.heap.brk)
  {
    hide Agrees, Apply, ApplyAll, Live, Separate, Step;
    at, own, ok := map[], map[], [];
    var s := Ideal(map[], map[]);
    views := [View(a.blocks, a.heap.brk, at, s)];
    Nothing(a.heap.Mem(), Live(a.blocks));
    ApplyNone(ops);
    for i := 0 to |ops|
      invariant a.Valid() && Steps(views, ops[..i], ok, a.heap.cells.Length) && s == ApplyAll(ops[..i], ok)
      invariant views[0] == old(View(a.blocks, a.heap.brk, map[], Ideal(map[], map[])))
      invariant views[i] == View(a.blocks, a.heap.brk, at, s)
      invariant Agrees(a.heap.Mem(), Live(a.blocks), at, own, s)
    {
      var done;
      ghost var v := views[i];
      at, own, done := Perform(a, ops[i], at, own, s);
      ApplyNext(ops, ok, i, done);
      s := Apply(s, ops[i], done);
      ghost var v' := View(a.blocks, a.heap.brk, at, s);
      StepsNext(views, ops[..i], ok, a.heap.cells.Length, v', ops[i], done);
      assert ops[..i] + [ops[i]] == ops[..i + 1];
      views := views + [v'];
      ok := ok + [done];
    }
    assert ops[..|ops|] == ops;
    SettledWellFormed(a.heap.Mem(), a.blocks, a.ring);
    LiveSeparate(Ring, a.heap.Mem(), a.blocks);
  }

  /** Free all allocated blocks, in any order: one free block remains, or none. */
  method FreeAll(a: RingAllocator, ptrs: seq<int>)
    requires a.Valid() && Pointers(ptrs, a.blocks, 0) && forall i, j :: 0 <= i < j < |ptrs| ==> ptrs[i] != ptrs[j]
    modifies a, a.heap.cells
    ensures a.Valid() && a.blocks == if a.heap.brk == BASE then [] else [Block(BASE, a.heap.brk - BASE, true)]
  {
    hide Settled, Release, Tiles, WellFormed, Coalesced, Layout, Pointers, RingInv;
    for i := 0 to |ptrs|
      invariant a.Valid() && Pointers(ptrs[i..], a.blocks, 0)
    {
      ghost var bs := a.blocks;
      ghost var b := PointerBlock(ptrs[i..], bs, 0);
      SettledWellFormed(a.heap.Mem(), bs, a.ring);
      WellFormedTiles(bs, BASE, a.heap.brk, LEAST);
      OneAtAddress(bs, BASE, a.heap.brk, b);
      a.Free(ptrs[i]);
      PointersReleased(ptrs[i..], bs, 0, IndexOf(bs, b.addr), BASE, a.heap.brk);
      assert ptrs[i..][1..] == ptrs[i + 1..];
    }
    SettledWellFormed(a.heap.Mem(), a.blocks, a.ring);
    NoPointers(a.blocks, 0, BASE, a.heap.brk, LEAST);
  }
}
