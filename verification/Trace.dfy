/** What the client of an allocator sees: buffers that share nothing. A run of allocations, writes, releases and
    resizings against a heap is compared with the same run against independent buffers. */
module Trace {
  import opened Blocks

  /** The client names its buffers by numbers. A write stores a word at an offset that is a multiple of four. */
  datatype Op =
    | Alloc(id: nat, size: nat) | Write(id: nat, offset: nat, v: int) | Free(id: nat) | Resize(id: nat, size: nat)

  /** Live buffers with their requested sizes, and the words written to them so far. */
  datatype Ideal = Ideal(asked: map<nat, nat>, words: map<(nat, nat), int>)

  predicate WriteFits(s: Ideal, op: Op)
    requires op.Write?
  {
    op.id in s.asked && op.offset % 4 == 0 && op.offset + 4 <= s.asked[op.id]
  }

  /** One operation on independent buffers. `ok` says whether memory suffices; misuse has no effect. */
  function Apply(s: Ideal, op: Op, ok: bool): Ideal {
    match op
    case Alloc(id, size) => if id !in s.asked && ok then s.(asked := s.asked[id := size]) else s
    case Write(id, offset, v) => if WriteFits(s, op) then s.(words := s.words[(id, offset) := v]) else s
    case Free(id) => if id in s.asked then Ideal(s.asked - {id}, map k | k in s.words && k.0 != id :: s.words[k]) else s
    case Resize(id, size) =>
      if id in s.asked && ok then
        Ideal(s.asked[id := size], map k | k in s.words && (k.0 == id ==> k.1 + 4 <= size) :: s.words[k])
      else s
  }

  function ApplyAll(ops: seq<Op>, ok: seq<bool>): Ideal
    requires |ok| == |ops|
  {
    if ops == [] then Ideal(map[], map[]) else Apply(ApplyAll(ops[..|ops| - 1], ok[..|ops| - 1]), ops[|ops| - 1], ok[|ops| - 1])
  }

  lemma ApplyRefused(s: Ideal, op: Op)
    requires op.Alloc? || op.Resize?
    ensures Apply(s, op, false) == s
  {
  }

  lemma ApplyNoWrite(s: Ideal, op: Op)
    requires op.Write? && !WriteFits(s, op)
    ensures forall ok :: Apply(s, op, ok) == s
  {
  }

  lemma ApplyNoFree(s: Ideal, op: Op)
    requires op.Free? && op.id !in s.asked
    ensures forall ok :: Apply(s, op, ok) == s
  {
  }

  lemma ApplyNone(ops: seq<Op>)
    ensures ApplyAll(ops[..0], []) == Ideal(map[], map[])
  {
  }

  lemma ApplyNext(ops: seq<Op>, ok: seq<bool>, i: nat, done: bool)
    requires i < |ops| && |ok| == i
    ensures ApplyAll(ops[..i + 1], ok + [done]) == Apply(ApplyAll(ops[..i], ok), ops[i], done)
  {
    assert ops[..i + 1][..i] == ops[..i] && (ok + [done])[..i] == ok;
  }

  // ---------- runs ----------

  /** A heap between two operations: its blocks, its break, where the buffers start, and what they should hold. */
  datatype View = View(blocks: seq<Block>, brk: int, at: map<nat, int>, ideal: Ideal)

  ghost predicate Still(v: View, v': View) {
    v'.blocks == v.blocks && v'.brk == v.brk && v'.at == v.at
  }

  /** The block of buffer `id`, which starts `skip` bytes before the buffer, merges with its free neighbours. */
  ghost predicate Drops(v: View, v': View, id: nat, skip: int) {
    && id in v.at && v'.at == v.at - {id} && v'.brk == v.brk
    && exists k: nat :: k < |v.blocks| && v.blocks[k].addr == v.at[id] - skip && !v.blocks[k].free && v'.blocks == Release(v.blocks, k)
  }

  /** A new buffer, or a new size for an old one. */
  predicate Asks(s: Ideal, op: Op) {
    (op.Alloc? && op.id !in s.asked) || (op.Resize? && op.id in s.asked)
  }

  /** One operation. `served` says whether the allocator can serve the request, `placed` how it then does. */
  ghost predicate Moves(v: View, v': View, op: Op, ok: bool, served: bool, placed: bool, skip: int) {
    && v'.ideal == Apply(v.ideal, op, ok)
    && match op
       case Alloc(id, _) => (ok <==> id !in v.ideal.asked && served) && if ok then placed else Still(v, v')
       case Write(_, _, _) => (ok <==> WriteFits(v.ideal, op)) && Still(v, v')
       case Free(id) => (ok <==> id in v.ideal.asked) && if ok then Drops(v, v', id, skip) else Still(v, v')
       case Resize(id, _) => (ok <==> id in v.ideal.asked && served) && if ok then placed else Still(v, v')
  }

  lemma ServedMoves(v: View, v': View, op: Op, skip: int)
    requires Asks(v.ideal, op) && v'.ideal == Apply(v.ideal, op, true)
    ensures Moves(v, v', op, true, true, true, skip)
  {
  }

  lemma RefusedMoves(v: View, v': View, op: Op, served: bool, placed: bool, skip: int)
    requires (op.Alloc? || op.Resize?) && !(Asks(v.ideal, op) && served)
    requires Still(v, v') && v'.ideal == Apply(v.ideal, op, false)
    ensures Moves(v, v', op, false, served, placed, skip)
  {
  }

  lemma WriteMoves(v: View, v': View, op: Op, ok: bool, served: bool, placed: bool, skip: int)
    requires op.Write? && (ok <==> WriteFits(v.ideal, op)) && Still(v, v') && v'.ideal == Apply(v.ideal, op, ok)
    ensures Moves(v, v', op, ok, served, placed, skip)
  {
  }

  lemma FreeMoves(v: View, v': View, op: Op, served: bool, placed: bool, skip: int, k: nat)
    requires op.Free? && op.id in v.ideal.asked && op.id in v.at && v'.at == v.at - {op.id} && v'.brk == v.brk
    requires k < |v.blocks| && v.blocks[k].addr == v.at[op.id] - skip && !v.blocks[k].free && v'.blocks == Release(v.blocks, k)
    requires v'.ideal == Apply(v.ideal, op, true)
    ensures Moves(v, v', op, true, served, placed, skip)
  {
  }

  lemma NoFreeMoves(v: View, v': View, op: Op, served: bool, placed: bool, skip: int)
    requires op.Free? && op.id !in v.ideal.asked && Still(v, v') && v'.ideal == Apply(v.ideal, op, false)
    ensures Moves(v, v', op, false, served, placed, skip)
  {
  }

  /** By how much operations may grow a heap. */
  function Total(ops: seq<Op>, growth: Op -> nat): nat {
    if ops == [] then 0 else Total(ops[..|ops| - 1], growth) + growth(ops[|ops| - 1])
  }

  lemma {:induction false} TotalUpto(ops: seq<Op>, growth: Op -> nat, i: nat)
    requires i < |ops|
    ensures Total(ops[..i], growth) + growth(ops[i]) <= Total(ops, growth)
    decreases |ops|
  {
    var n := |ops| - 1;
    if i < n {
      TotalUpto(ops[..n], growth, i);
      assert ops[..n][..i] == ops[..i];
    }
  }

  /** Where the break is after `i` operations. */
  lemma {:induction false} BreakUpto(views: seq<View>, ops: seq<Op>, growth: Op -> nat, i: nat)
    requires |views| == |ops| + 1 && i <= |ops|
    requires forall j :: 0 <= j < |ops| ==> views[j + 1].brk <= views[j].brk + growth(ops[j])
    ensures views[i].brk <= views[0].brk + Total(ops[..i], growth)
  {
    if i > 0 {
      BreakUpto(views, ops, growth, i - 1);
      assert ops[..i][..i - 1] == ops[..i - 1];
      assert views[i - 1 + 1].brk <= views[i - 1].brk + growth(ops[i - 1]);
    }
  }

  // ---------- buffers in a heap ----------

  /** The payload of an allocated block. */
  datatype Buffer = Buffer(start: int, room: int)

  ghost predicate SameBytes(m: seq<int>, m': seq<int>, u: Buffer) {
    && 0 <= u.start && u.start + u.room <= |m| && u.start + u.room <= |m'|
    && forall x :: u.start <= x < u.start + u.room ==> m'[x] == m[x]
  }

  /** Every buffer except those in `gone` is still there, with the same contents. */
  ghost predicate Retained(m: seq<int>, m': seq<int>, us: set<Buffer>, us': set<Buffer>, gone: set<Buffer>) {
    forall u :: u in us && u !in gone ==> u in us' && SameBytes(m, m', u)
  }

  /** Buffers are aligned, lie inside the heap and do not overlap. */
  ghost predicate Separate(us: set<Buffer>, brk: int) {
    && (forall u :: u in us ==> u.start % 8 == 0 && 0 < u.start && u.start + u.room <= brk)
    && (forall u, v :: u in us && v in us && u != v ==> u.start + u.room <= v.start || v.start + v.room <= u.start)
  }

  /** Every live buffer is a buffer of its own with room for what was asked, and holds what was written. */
  ghost predicate Agrees(m: seq<int>, us: set<Buffer>, at: map<nat, int>, own: map<nat, Buffer>, s: Ideal) {
    && at.Keys == own.Keys == s.asked.Keys
    && (forall id :: id in own ==> Owns(us, own[id], at[id], s.asked[id]))
    && (forall id, id' :: id in own && id' in own && id != id' ==> own[id] != own[id'])
    && (forall k :: k in s.words ==> Holds(m, own, s.asked, k, s.words[k]))
  }

  ghost predicate Owns(us: set<Buffer>, u: Buffer, p: int, size: nat) {
    u in us && u.start == p && size <= u.room
  }

  ghost predicate Holds(m: seq<int>, own: map<nat, Buffer>, asked: map<nat, nat>, k: (nat, nat), v: int) {
    && k.0 in own && k.0 in asked && k.1 + 4 <= asked[k.0] <= own[k.0].room && k.1 % 4 == 0
    && 0 <= own[k.0].start + k.1 < |m| && m[own[k.0].start + k.1] == v
  }

  lemma Nothing(m: seq<int>, us: set<Buffer>)
    ensures Agrees(m, us, map[], map[], Ideal(map[], map[]))
  {
  }

  lemma Unchanged(m: seq<int>, m': seq<int>, us: set<Buffer>, us': set<Buffer>, at: map<nat, int>, own: map<nat, Buffer>, s: Ideal)
    requires Agrees(m, us, at, own, s) && m' == m && us' == us
    ensures Agrees(m', us', at, own, s)
  {
  }

  lemma SameIds(m: seq<int>, us: set<Buffer>, at: map<nat, int>, own: map<nat, Buffer>, s: Ideal)
    requires Agrees(m, us, at, own, s)
    ensures at.Keys == own.Keys == s.asked.Keys
  {
  }

  lemma OwnerOf(m: seq<int>, us: set<Buffer>, at: map<nat, int>, own: map<nat, Buffer>, s: Ideal, id: nat)
    requires Agrees(m, us, at, own, s) && id in s.asked
    ensures id in own && id in at && Owns(us, own[id], at[id], s.asked[id])
  {
  }

  lemma HeldBy(m: seq<int>, us: set<Buffer>, at: map<nat, int>, own: map<nat, Buffer>, s: Ideal, k: (nat, nat))
    requires Agrees(m, us, at, own, s) && k in s.words
    ensures Holds(m, own, s.asked, k, s.words[k]) && k.0 in own && k.0 in s.asked
  {
  }

  lemma HoldsAlso(m: seq<int>, own: map<nat, Buffer>, asked: map<nat, nat>, own': map<nat, Buffer>, asked': map<nat, nat>,
      k: (nat, nat), v: int)
    requires Holds(m, own, asked, k, v) && k.0 in own' && k.0 in asked' && own'[k.0] == own[k.0] && asked'[k.0] == asked[k.0]
    ensures Holds(m, own', asked', k, v)
  {
  }

  /** A call that keeps the other buffers keeps what they hold. */
  lemma OthersHold(m: seq<int>, m': seq<int>, us: set<Buffer>, us': set<Buffer>, gone: set<Buffer>, at: map<nat, int>,
      own: map<nat, Buffer>, s: Ideal, id: nat)
    requires Agrees(m, us, at, own, s) && Retained(m, m', us, us', gone) && id in own && own[id] !in gone
    ensures Owns(us', own[id], at[id], s.asked[id])
    ensures forall k :: k in s.words && k.0 == id ==> Holds(m', own, s.asked, k, s.words[k])
  {
    assert Owns(us, own[id], at[id], s.asked[id]);
    assert SameBytes(m, m', own[id]);
    forall k | k in s.words && k.0 == id ensures Holds(m', own, s.asked, k, s.words[k]) {
      assert Holds(m, own, s.asked, k, s.words[k]);
    }
  }

  /** The other buffers after buffer `id` has got a new place. */
  lemma OthersStay(m: seq<int>, m': seq<int>, us: set<Buffer>, us': set<Buffer>, gone: set<Buffer>, at: map<nat, int>,
      own: map<nat, Buffer>, s: Ideal, id: nat, u: Buffer, size: nat)
    requires Agrees(m, us, at, own, s) && Retained(m, m', us, us', gone) && Owns(us', u, u.start, size) && u !in us
    requires forall i :: i in own && i != id ==> own[i] !in gone
    ensures var at', own', asked' := at[id := u.start], own[id := u], s.asked[id := size];
      && (forall i :: i in own' ==> Owns(us', own'[i], at'[i], asked'[i]))
      && (forall i, i' :: i in own' && i' in own' && i != i' ==> own'[i] != own'[i'])
      && (forall k :: k in s.words && k.0 != id ==> Holds(m', own', asked', k, s.words[k]))
  {
    hide Holds, Retained;
    var at', own', asked' := at[id := u.start], own[id := u], s.asked[id := size];
    forall i | i in own' ensures Owns(us', own'[i], at'[i], asked'[i]) && (i != id ==> own'[i] in us) {
      if i != id {
        OwnerOf(m, us, at, own, s, i);
        OthersHold(m, m', us, us', gone, at, own, s, i);
      }
    }
    forall k | k in s.words && k.0 != id ensures Holds(m', own', asked', k, s.words[k]) {
      HeldBy(m, us, at, own, s, k);
      OthersHold(m, m', us, us', gone, at, own, s, k.0);
      HoldsAlso(m', own, s.asked, own', asked', k, s.words[k]);
    }
  }

  /** `u` is a new buffer. */
  lemma Allocated(m: seq<int>, m': seq<int>, us: set<Buffer>, us': set<Buffer>, at: map<nat, int>, own: map<nat, Buffer>, s: Ideal,
      id: nat, size: nat, u: Buffer)
    requires Agrees(m, us, at, own, s) && Retained(m, m', us, us', {}) && id !in s.asked
    requires Owns(us', u, u.start, size) && u !in us
    ensures Agrees(m', us', at[id := u.start], own[id := u], Apply(s, Alloc(id, size), true))
  {
    hide Holds, Retained, Owns;
    OthersStay(m, m', us, us', {}, at, own, s, id, u, size);
    forall k | k in s.words ensures k.0 != id {
      HeldBy(m, us, at, own, s, k);
    }
  }

  lemma Written(m: seq<int>, us: set<Buffer>, at: map<nat, int>, own: map<nat, Buffer>, s: Ideal, op: Op)
    requires op.Write? && Agrees(m, us, at, own, s) && WriteFits(s, op) && 0 <= at[op.id] + op.offset < |m|
    requires Retained(m, m[at[op.id] + op.offset := op.v], us, us, {own[op.id]})
    ensures Agrees(m[at[op.id] + op.offset := op.v], us, at, own, Apply(s, op, true))
  {
    hide Holds, Retained;
    var m', s' := m[at[op.id] + op.offset := op.v], Apply(s, op, true);
    OwnerOf(m, us, at, own, s, op.id);
    forall k | k in s'.words ensures Holds(m', own, s'.asked, k, s'.words[k]) {
      if k == (op.id, op.offset) {
        HoldsNow(m, own, s.asked, k, op.v);
      } else if k.0 == op.id {
        HeldBy(m, us, at, own, s, k);
        HoldsElse(m, own, s.asked, k, s.words[k], at[op.id] + op.offset, op.v);
      } else {
        HeldBy(m, us, at, own, s, k);
        OthersHold(m, m', us, us, {own[op.id]}, at, own, s, k.0);
      }
    }
  }

  lemma HoldsNow(m: seq<int>, own: map<nat, Buffer>, asked: map<nat, nat>, k: (nat, nat), v: int)
    requires k.0 in own && k.0 in asked && k.1 + 4 <= asked[k.0] <= own[k.0].room && k.1 % 4 == 0
    requires 0 <= own[k.0].start + k.1 < |m|
    ensures Holds(m[own[k.0].start + k.1 := v], own, asked, k, v)
  {
  }

  lemma HoldsElse(m: seq<int>, own: map<nat, Buffer>, asked: map<nat, nat>, k: (nat, nat), v: int, a: int, w: int)
    requires Holds(m, own, asked, k, v) && 0 <= a < |m| && a != own[k.0].start + k.1
    ensures Holds(m[a := w], own, asked, k, v)
  {
  }

  lemma Dropped(m: seq<int>, m': seq<int>, us: set<Buffer>, us': set<Buffer>, at: map<nat, int>, own: map<nat, Buffer>, s: Ideal, id: nat)
    requires Agrees(m, us, at, own, s) && id in own && Retained(m, m', us, us', {own[id]})
    ensures Agrees(m', us', at - {id}, own - {id}, Apply(s, Op.Free(id), true))
  {
    hide Holds, Owns, Retained;
    var at', own', s' := at - {id}, own - {id}, Apply(s, Op.Free(id), true);
    forall i | i in own' ensures Owns(us', own'[i], at'[i], s'.asked[i]) {
      OthersHold(m, m', us, us', {own[id]}, at, own, s, i);
    }
    forall k | k in s'.words ensures Holds(m', own', s'.asked, k, s'.words[k]) {
      HeldBy(m, us, at, own, s, k);
      OthersHold(m, m', us, us', {own[id]}, at, own, s, k.0);
      HoldsAlso(m', own, s.asked, own', s'.asked, k, s.words[k]);
    }
  }

  /** The first `c` bytes of `u` are now in `v`. */
  ghost predicate Copied(m: seq<int>, m': seq<int>, u: Buffer, v: Buffer, c: int) {
    && 0 <= u.start && u.start + c <= |m| && 0 <= v.start && v.start + c <= |m'|
    && 0 <= c && m'[v.start..v.start + c] == m[u.start..u.start + c]
  }

  /** Buffer `id` has moved to `v`, with as much of its contents as fits. */
  lemma Resized(m: seq<int>, m': seq<int>, us: set<Buffer>, us': set<Buffer>, at: map<nat, int>, own: map<nat, Buffer>, s: Ideal,
      id: nat, size: nat, v: Buffer)
    requires Agrees(m, us, at, own, s) && id in s.asked && Retained(m, m', us, us', {own[id]})
    requires Owns(us', v, v.start, size) && v !in us
    requires Copied(m, m', own[id], v, if size < own[id].room then size else own[id].room)
    ensures Agrees(m', us', at[id := v.start], own[id := v], Apply(s, Resize(id, size), true))
  {
    hide Holds, Retained, Owns, Copied;
    var own', s' := own[id := v], Apply(s, Resize(id, size), true);
    OthersStay(m, m', us, us', {own[id]}, at, own, s, id, v, size);
    forall k | k in s'.words ensures Holds(m', own', s'.asked, k, s'.words[k]) {
      if k.0 == id {
        HeldBy(m, us, at, own, s, k);
        RoomAfter(us', v, size);
        HoldsMoved(m, m', own, s.asked, own', s'.asked, k, s.words[k]);
      }
    }
  }

  lemma RoomAfter(us: set<Buffer>, v: Buffer, size: nat)
    requires Owns(us, v, v.start, size)
    ensures size <= v.room
  {
  }

  lemma HoldsMoved(m: seq<int>, m': seq<int>, own: map<nat, Buffer>, asked: map<nat, nat>, own': map<nat, Buffer>,
      asked': map<nat, nat>, k: (nat, nat), v: int)
    requires Holds(m, own, asked, k, v) && k.0 in own' && k.0 in asked' && k.1 + 4 <= asked'[k.0] <= own'[k.0].room
    requires Copied(m, m', own[k.0], own'[k.0], if asked'[k.0] < own[k.0].room then asked'[k.0] else own[k.0].room)
    ensures Holds(m', own', asked', k, v)
  {
    var u, u', c := own[k.0], own'[k.0], if asked'[k.0] < own[k.0].room then asked'[k.0] else own[k.0].room;
    assert m'[u'.start..u'.start + c][k.1] == m[u.start..u.start + c][k.1];
  }

  lemma SeparateAt(us: set<Buffer>, brk: int, u: Buffer, v: Buffer)
    requires Separate(us, brk) && u in us && v in us && u != v
    ensures u.start % 8 == 0 && 0 < u.start && u.start + u.room <= brk
    ensures u.start + u.room <= v.start || v.start + v.room <= u.start
  {
  }

  lemma OwnBuffers(m: seq<int>, us: set<Buffer>, at: map<nat, int>, own: map<nat, Buffer>, s: Ideal, i: nat, j: nat)
    requires Agrees(m, us, at, own, s) && i in s.asked && j in s.asked && i != j
    ensures i in own && j in own && own[i] != own[j]
  {
  }

  /** Two live buffers do not overlap, and they are aligned and inside the heap. */
  lemma Buffers(m: seq<int>, us: set<Buffer>, at: map<nat, int>, own: map<nat, Buffer>, s: Ideal, i: nat, j: nat)
    requires Agrees(m, us, at, own, s) && Separate(us, |m|) && i in s.asked && j in s.asked && i != j
    ensures i in at && j in at && at[i] % 8 == 0 && 0 < at[i] && at[i] + s.asked[i] <= |m|
    ensures at[i] + s.asked[i] <= at[j] || at[j] + s.asked[j] <= at[i]
  {
    OwnBuffers(m, us, at, own, s, i, j);
    hide Agrees, Separate;
    OwnerOf(m, us, at, own, s, i);
    OwnerOf(m, us, at, own, s, j);
    SeparateAt(us, |m|, own[i], own[j]);
  }

  /** A word that was written last is still there. */
  lemma Words(m: seq<int>, us: set<Buffer>, at: map<nat, int>, own: map<nat, Buffer>, s: Ideal, k: (nat, nat))
    requires Agrees(m, us, at, own, s) && k in s.words
    ensures k.0 in at && 0 <= at[k.0] + k.1 < |m| && m[at[k.0] + k.1] == s.words[k]
  {
    HeldBy(m, us, at, own, s, k);
    OwnerOf(m, us, at, own, s, k.0);
  }
}
