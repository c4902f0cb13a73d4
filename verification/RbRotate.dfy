/** `rb_rotate_left` and `rb_rotate_right`. */
module RbRotate {
  import opened Memlib
  import opened RbModel
  import opened RbMem

  /** A node, its child on the side away from `s`, and the three subtrees below them. */
  datatype Pair = Pair(p: Item, cp: bool, a: Tree, r: Item, cr: bool, b: Tree, d: Tree) {

    function Tree(s: Side): Tree {
      Mk(s, p, cp, a, Mk(s, r, cr, b, d))
    }

    /** The same blocks after a rotation towards side `s`. */
    function Rotated(s: Side): Tree {
      Mk(s, r, cr, Mk(s, p, cp, a, b), d)
    }
  }

  /** The six words a rotation may write. */
  predicate RotationWord(s: Side, c: Ctx, q: Pair, x: int) {
    || x == q.p.addr + Off(Other(s)) || x == q.p.addr + 16
    || x == q.r.addr + Off(s) || x == q.r.addr + 16
    || x == HoleCell(c)
    || (q.b.Node? && x == q.b.item.addr + 16)
  }

  /** A pair of nodes and the context around it, with what a rotation must know about them. */
  ghost predicate Opened(m: seq<int>, ns: set<int>, s: Side, c: Ctx, q: Pair) {
    && NodeAt(m, q.p, q.cp, if s == Lft then Ptr(q.a) else q.r.addr, if s == Lft then q.r.addr else Ptr(q.a), CtxPtr(c))
    && NodeAt(m, q.r, q.cr, if s == Lft then Ptr(q.b) else Ptr(q.d), if s == Lft then Ptr(q.d) else Ptr(q.b), q.p.addr)
    && TreeAt(m, q.a, q.p.addr) && TreeAt(m, q.b, q.r.addr) && TreeAt(m, q.d, q.r.addr)
    && CtxAt(m, c, q.p.addr) && CtxUniq(c) && NilAt(m)
    && Apart(ns) && CtxAddrs(c) <= ns && Uniq(q.b)
    && q.p.addr in ns && q.r.addr in ns && q.p.addr != q.r.addr
    && q.p.addr !in CtxAddrs(c) && q.r.addr !in CtxAddrs(c) && CtxAddrs(c) !! Addrs(q.b)
    && Elsewhere(ns, c, q, q.a) && Elsewhere(ns, c, q, q.b) && Elsewhere(ns, c, q, q.d)
    && Addrs(q.a) !! Addrs(q.b) && Addrs(q.b) !! Addrs(q.d)
  }

  ghost predicate Elsewhere(ns: set<int>, c: Ctx, q: Pair, t: Tree) {
    Addrs(t) <= ns && q.p.addr !in Addrs(t) && q.r.addr !in Addrs(t) && (c.Frame? ==> c.item.addr !in Addrs(t))
  }

  lemma PairAddrs(s: Side, q: Pair)
    ensures Addrs(q.Tree(s)) == {q.p.addr, q.r.addr} + Addrs(q.a) + Addrs(q.b) + Addrs(q.d)
    ensures Addrs(q.Rotated(s)) == Addrs(q.Tree(s))
  {
    hide Aligned;
    assert Addrs(Mk(s, q.r, q.cr, q.b, q.d)) == {q.r.addr} + Addrs(q.b) + Addrs(q.d);
    assert Addrs(Mk(s, q.p, q.cp, q.a, q.b)) == {q.p.addr} + Addrs(q.a) + Addrs(q.b);
  }

  lemma RotateUniq(s: Side, q: Pair)
    requires Uniq(q.Tree(s))
    ensures Uniq(q.Rotated(s))
  {
    hide Aligned;
    var far, near := Mk(s, q.r, q.cr, q.b, q.d), Mk(s, q.p, q.cp, q.a, q.b);
    assert Uniq(far);
    assert Addrs(far) == {q.r.addr} + Addrs(q.b) + Addrs(q.d);
    assert Uniq(near);
    assert Addrs(near) == {q.p.addr} + Addrs(q.a) + Addrs(q.b);
  }

  lemma Open(m: seq<int>, ns: set<int>, s: Side, c: Ctx, q: Pair)
    requires Rep(m, ns, c, q.Tree(s))
    ensures Opened(m, ns, s, c, q)
  {
    hide TreeAt, NodeAt, NilAt, Apart, Uniq, CtxUniq;
    OpenWords(m, s, q, CtxPtr(c));
    OpenSets(ns, s, c, q);
    HoleCellBound(m, c, q.p.addr);
  }

  lemma OpenWords(m: seq<int>, s: Side, q: Pair, parent: int)
    requires TreeAt(m, q.Tree(s), parent)
    ensures NodeAt(m, q.p, q.cp, if s == Lft then Ptr(q.a) else q.r.addr, if s == Lft then q.r.addr else Ptr(q.a), parent)
    ensures NodeAt(m, q.r, q.cr, if s == Lft then Ptr(q.b) else Ptr(q.d), if s == Lft then Ptr(q.d) else Ptr(q.b), q.p.addr)
    ensures TreeAt(m, q.a, q.p.addr) && TreeAt(m, q.b, q.r.addr) && TreeAt(m, q.d, q.r.addr)
  {
    hide NodeAt;
    assert TreeAt(m, Mk(s, q.r, q.cr, q.b, q.d), q.p.addr);
  }

  lemma OpenSets(ns: set<int>, s: Side, c: Ctx, q: Pair)
    requires Partition(ns, c, q.Tree(s))
    ensures CtxUniq(c) && CtxAddrs(c) <= ns && Uniq(q.b)
    ensures q.p.addr in ns && q.r.addr in ns && q.p.addr != q.r.addr
    ensures q.p.addr !in CtxAddrs(c) && q.r.addr !in CtxAddrs(c) && CtxAddrs(c) !! Addrs(q.b)
    ensures Elsewhere(ns, c, q, q.a) && Elsewhere(ns, c, q, q.b) && Elsewhere(ns, c, q, q.d)
    ensures Addrs(q.a) !! Addrs(q.b) && Addrs(q.b) !! Addrs(q.d)
  {
    var far := Mk(s, q.r, q.cr, q.b, q.d);
    assert Uniq(far) && Addrs(far) == {q.r.addr} + Addrs(q.b) + Addrs(q.d);
    assert c.Frame? ==> c.item.addr in CtxAddrs(c);
  }

  /** The four nodes on the path of a rotation. */
  ghost predicate OnPath(ns: set<int>, c: Ctx, q: Pair) {
    && Apart(ns) && q.p.addr in ns && q.r.addr in ns
    && (c.Frame? ==> c.item.addr in ns) && (q.b.Node? ==> q.b.item.addr in ns)
  }

  lemma OpenedPath(m: seq<int>, ns: set<int>, s: Side, c: Ctx, q: Pair)
    requires Opened(m, ns, s, c, q)
    ensures OnPath(ns, c, q) && CtxAddrs(c) <= ns && CtxUniq(c) && CtxAt(m, c, q.p.addr) && NilAt(m)
    ensures q.p.addr !in CtxAddrs(c) && q.r.addr !in CtxAddrs(c) && q.p.addr != q.r.addr
    ensures c.Frame? ==> c.item.addr in CtxAddrs(c)
    ensures q.b.Node? ==> q.b.item.addr in Addrs(q.b) && q.b.item.addr !in CtxAddrs(c)
    ensures q.b.Node? ==> q.b.item.addr != q.p.addr && q.b.item.addr != q.r.addr
  {
    HoleCellBound(m, c, q.p.addr);
    assert q.b.Node? ==> q.b.item.addr in Addrs(q.b);
  }

  /** Word `x` of node `a` is not among the six. */
  lemma NotRotated(ns: set<int>, s: Side, c: Ctx, q: Pair, a: int, x: int)
    requires OnPath(ns, c, q) && a in ns && a + 4 <= x < a + NODE_BYTES
    requires a == q.p.addr ==> x != a + Off(Other(s)) && x != a + 16
    requires a == q.r.addr ==> x != a + Off(s) && x != a + 16
    requires c.Frame? && a == c.item.addr ==> x != HoleCell(c)
    requires q.b.Node? && a == q.b.item.addr ==> x != a + 16
    ensures !RotationWord(s, c, q, x)
  {
    NodeOf(ns, a, x, q.p.addr);
    NodeOf(ns, a, x, q.r.addr);
    if c.Frame? {
      NodeOf(ns, a, x, c.item.addr);
    }
    if q.b.Node? {
      NodeOf(ns, a, x, q.b.item.addr);
    }
    hide Apart;
  }

  lemma NodeOf(ns: set<int>, a: int, x: int, b: int)
    requires Apart(ns) && a in ns && b in ns && a + 4 <= x < a + NODE_BYTES
    ensures NODE_BYTES <= a && (b + 4 <= x < b + NODE_BYTES ==> a == b)
  {
  }

  /** Only words on the path of the rotation differ. */
  ghost predicate Rotation(m: seq<int>, m': seq<int>, s: Side, c: Ctx, q: Pair) {
    |m| == |m'| && forall x :: 0 <= x < |m| && !RotationWord(s, c, q, x) ==> m[x] == m'[x]
  }

  /** The two words of node `a` that a rotation writes. */
  ghost predicate Rewritten(m: seq<int>, a: int, off: int, child: int, parent: int) {
    0 <= a && 0 <= off < NODE_BYTES && a + NODE_BYTES <= |m| && m[a + off] == child && m[a + 16] == parent
  }

  /** The six words after a rotation; nothing else has changed. */
  ghost predicate Turned(m: seq<int>, m': seq<int>, s: Side, c: Ctx, q: Pair) {
    && Rotation(m, m', s, c, q)
    && Rewritten(m', q.p.addr, Off(Other(s)), Ptr(q.b), q.r.addr) && Rewritten(m', q.r.addr, Off(s), q.p.addr, CtxPtr(c))
    && 0 <= HoleCell(c) < |m'| && m'[HoleCell(c)] == q.r.addr
    && (q.b.Node? ==> 0 <= q.b.item.addr && q.b.item.addr + 16 < |m'| && m'[q.b.item.addr + 16] == q.p.addr)
  }

  /** A rotation writes no word of a node other than the four on its path. */
  lemma RotationMisses(m: seq<int>, m': seq<int>, ns: set<int>, s: Side, c: Ctx, q: Pair, a: int)
    requires Rotation(m, m', s, c, q) && OnPath(ns, c, q) && a in ns && a != q.p.addr && a != q.r.addr
    requires (c.Frame? ==> a != c.item.addr) && (q.b.Node? ==> a != q.b.item.addr)
    ensures SameNode(m, m', a)
  {
    hide RotationWord, OnPath, HoleCell;
    forall x | 0 <= x < |m| && a + 4 <= x < a + NODE_BYTES ensures m[x] == m'[x] {
      NotRotated(ns, s, c, q, a, x);
    }
  }

  lemma RotateOuter(m: seq<int>, m': seq<int>, ns: set<int>, s: Side, c: Ctx, q: Pair, t: Tree, parent: int)
    requires Opened(m, ns, s, c, q) && Rotation(m, m', s, c, q)
    requires Elsewhere(ns, c, q, t) && Addrs(t) !! Addrs(q.b) && TreeAt(m, t, parent)
    ensures TreeAt(m', t, parent)
  {
    OpenedPath(m, ns, s, c, q);
    hide Opened, OnPath, Rotation, SameNode;
    forall x | x in Addrs(t) ensures SameNode(m, m', x) {
      RotationMisses(m, m', ns, s, c, q, x);
    }
    SameLengths(m, m', s, c, q);
    TreeFrame(m, m', t, parent);
  }

  lemma SameLengths(m: seq<int>, m': seq<int>, s: Side, c: Ctx, q: Pair)
    requires Rotation(m, m', s, c, q)
    ensures |m| == |m'|
  {
  }

  lemma RotateInner(m: seq<int>, m': seq<int>, ns: set<int>, s: Side, c: Ctx, q: Pair)
    requires Opened(m, ns, s, c, q) && Turned(m, m', s, c, q)
    ensures TreeAt(m', q.b, q.p.addr)
  {
    if q.b.Node? {
      var b := q.b;
      OpenedPath(m, ns, s, c, q);
      InnerBelow(m, ns, s, c, q);
      SameLengths(m, m', s, c, q);
      hide Opened, OnPath, RotationWord, HoleCell, Aligned;
      forall x | x == b.item.addr + 4 || x == b.item.addr + 8 || x == b.item.addr + 12 || x == b.item.addr + 20 ensures m[x] == m'[x] {
        NotRotated(ns, s, c, q, b.item.addr, x);
      }
      hide Rotation, SameNode;
      forall x | x in Addrs(b.left) + Addrs(b.right) ensures SameNode(m, m', x) {
        RotationMisses(m, m', ns, s, c, q, x);
      }
      TreeFrame(m, m', b.left, b.item.addr);
      TreeFrame(m, m', b.right, b.item.addr);
    }
  }

  lemma InnerBelow(m: seq<int>, ns: set<int>, s: Side, c: Ctx, q: Pair)
    requires Opened(m, ns, s, c, q) && q.b.Node?
    ensures TreeAt(m, q.b, q.r.addr) && q.b.item.addr in ns
    ensures forall x :: x in Addrs(q.b.left) + Addrs(q.b.right) ==>
      x in ns && x != q.b.item.addr && x != q.p.addr && x != q.r.addr && (c.Frame? ==> x != c.item.addr)
  {
    assert forall x :: x in Addrs(q.b.left) + Addrs(q.b.right) ==> x in Addrs(q.b) && x != q.b.item.addr;
  }

  lemma RotateContext(m: seq<int>, m': seq<int>, ns: set<int>, s: Side, c: Ctx, q: Pair)
    requires Opened(m, ns, s, c, q) && Turned(m, m', s, c, q)
    ensures CtxAt(m', c, q.r.addr) && NilAt(m')
  {
    OpenedPath(m, ns, s, c, q);
    HoleCellBound(m, c, q.p.addr);
    NilUnrotated(m, m', ns, s, c, q);
    SameLengths(m, m', s, c, q);
    hide Opened, RotationWord, CtxAt, NilAt, Aligned;
    forall a, x | a in CtxAddrs(c) && a + 4 <= x < a + NODE_BYTES && x < |m| && x != HoleCell(c) ensures m[x] == m'[x] {
      NotRotated(ns, s, c, q, a, x);
    }
    hide Rotation;
    CtxFrame(m, m', ns, c, q.p.addr, q.r.addr);
  }

  lemma NilUnrotated(m: seq<int>, m': seq<int>, ns: set<int>, s: Side, c: Ctx, q: Pair)
    requires OnPath(ns, c, q) && Rotation(m, m', s, c, q) && NilAt(m)
    ensures NilAt(m') && (c.Frame? ==> m[NIL + 8] == m'[NIL + 8])
  {
  }

  /** The words written by a rotation make the rotated tree. */
  lemma RotateRep(m: seq<int>, m': seq<int>, ns: set<int>, s: Side, c: Ctx, q: Pair)
    requires Rep(m, ns, c, q.Tree(s)) && Opened(m, ns, s, c, q) && Turned(m, m', s, c, q)
    ensures Rep(m', ns, c, q.Rotated(s))
  {
    RotateSubtrees(m, m', ns, s, c, q);
    RotateContext(m, m', ns, s, c, q);
    RotatePartition(m, ns, s, c, q);
    RotateLower(m, m', ns, s, c, q);
    RotateUpper(m, m', ns, s, c, q);
    hide Opened, Turned, Apart, Partition, NilAt, NodeAt, CtxAt;
    var near := Mk(s, q.p, q.cp, q.a, q.b);
    assert TreeAt(m', near, q.r.addr);
  }

  lemma RotateSubtrees(m: seq<int>, m': seq<int>, ns: set<int>, s: Side, c: Ctx, q: Pair)
    requires Opened(m, ns, s, c, q) && Turned(m, m', s, c, q)
    ensures TreeAt(m', q.a, q.p.addr) && TreeAt(m', q.b, q.p.addr) && TreeAt(m', q.d, q.r.addr)
  {
    hide Aligned, NodeAt, Apart, NilAt, CtxAt, Elsewhere, Rotation, Rewritten, TreeAt;
    RotateOuter(m, m', ns, s, c, q, q.a, q.p.addr);
    RotateOuter(m, m', ns, s, c, q, q.d, q.r.addr);
    RotateInner(m, m', ns, s, c, q);
  }

  lemma RotatePartition(m: seq<int>, ns: set<int>, s: Side, c: Ctx, q: Pair)
    requires Rep(m, ns, c, q.Tree(s))
    ensures Partition(ns, c, q.Rotated(s)) && Apart(ns)
  {
    hide NilAt, CtxAt, TreeAt, Apart, Uniq;
    RotateUniq(s, q);
    PairAddrs(s, q);
  }

  lemma RotateLower(m: seq<int>, m': seq<int>, ns: set<int>, s: Side, c: Ctx, q: Pair)
    requires Opened(m, ns, s, c, q) && Turned(m, m', s, c, q)
    ensures NodeAt(m', q.p, q.cp, if s == Lft then Ptr(q.a) else Ptr(q.b), if s == Lft then Ptr(q.b) else Ptr(q.a), q.r.addr)
  {
    OpenedPath(m, ns, s, c, q);
    SameLengths(m, m', s, c, q);
    var p := q.p.addr;
    forall x | x == p + 4 || x == p + Off(s) || x == p + 20 ensures m[x] == m'[x] {
      hide NodeAt, RotationWord, HoleCell;
      NotRotated(ns, s, c, q, p, x);
    }
    hide Aligned, Rotation, OnPath;
  }

  lemma RotateUpper(m: seq<int>, m': seq<int>, ns: set<int>, s: Side, c: Ctx, q: Pair)
    requires Opened(m, ns, s, c, q) && Turned(m, m', s, c, q)
    ensures NodeAt(m', q.r, q.cr, if s == Lft then q.p.addr else Ptr(q.d), if s == Lft then Ptr(q.d) else q.p.addr, CtxPtr(c))
  {
    OpenedPath(m, ns, s, c, q);
    SameLengths(m, m', s, c, q);
    var r := q.r.addr;
    forall x | x == r + 4 || x == r + Off(Other(s)) || x == r + 20 ensures m[x] == m'[x] {
      hide NodeAt, RotationWord, HoleCell;
      NotRotated(ns, s, c, q, r, x);
    }
    hide Aligned, Rotation, OnPath;
  }

  lemma RotationLinks(m: seq<int>, ns: set<int>, s: Side, c: Ctx, q: Pair, x: int)
    requires Opened(m, ns, s, c, q)
    requires RotationWord(s, c, q, x)
    ensures LinkWord(ns, x)
  {
    hide Aligned;
    assert q.b.Node? ==> q.b.item.addr in Addrs(q.b);
    assert c.Frame? ==> c.item.addr in CtxAddrs(c);
  }

  /** The word through which `parent` points to its child `node`. */
  function PointerTo(m: seq<int>, parent: int, node: int): int
    requires 0 <= parent && parent + 12 < |m|
  {
    if m[parent + 8] == node then parent + 8 else parent + 12
  }

  lemma ChildCell(m: seq<int>, c: Ctx, node: int)
    requires CtxAt(m, c, node) && node != NIL && node !in CtxAddrs(c)
    ensures PointerTo(m, CtxPtr(c), node) == HoleCell(c)
  {
    hide Aligned;
    assert c.Frame? && c.sib.Node? ==> c.sib.item.addr in CtxAddrs(c);
  }

  /** Make `child` the child of `parent` where `node` was. */
  method ReplaceChild(h: Memory, parent: int, node: int, child: int)
    requires h.Valid() && Readable(h.Mem(), parent)
    modifies h.cells
    ensures h.Mem() == old(h.Mem()[PointerTo(h.Mem(), parent, node) := child])
  {
    hide Aligned;
    if node == h.Get(parent + 8) {
      h.Put(parent + 8, child);
    } else {
      h.Put(parent + 12, child);
    }
  }

  /** The four nodes around a rotation and the links between them. */
  ghost predicate Wired(m: seq<int>, s: Side, node: int, child: int, inner: int, parent: int) {
    && NODE_BYTES <= node && NODE_BYTES <= child
    && Readable(m, node) && Readable(m, child) && Readable(m, parent) && Readable(m, inner)
    && ApartPair(node, child) && ApartPair(node, inner) && ApartPair(node, parent)
    && ApartPair(child, inner) && ApartPair(child, parent) && (inner == NIL || ApartPair(inner, parent))
    && m[node + Off(Other(s))] == child && m[child + Off(s)] == inner && m[node + 16] == parent
  }

  ghost predicate ApartPair(a: int, b: int) {
    a + NODE_BYTES <= b || b + NODE_BYTES <= a
  }

  /** The heap after the six writes, in program order. */
  ghost function Rewired(m: seq<int>, s: Side, node: int, child: int, inner: int, parent: int): seq<int>
    requires Wired(m, s, node, child, inner, parent)
  {
    var m1 := m[node + Off(Other(s)) := inner];
    var m2 := if inner == NIL then m1 else m1[inner + 16 := node];
    var m3 := m2[child + 16 := parent];
    var m4 := m3[PointerTo(m3, parent, node) := child];
    m4[child + Off(s) := node][node + 16 := child]
  }

  lemma RewiredWords(m: seq<int>, s: Side, node: int, child: int, inner: int, parent: int)
    requires Wired(m, s, node, child, inner, parent)
    ensures var m', cell := Rewired(m, s, node, child, inner, parent), PointerTo(m, parent, node);
      && |m'| == |m|
      && m'[node + Off(Other(s))] == inner && m'[node + 16] == child
      && m'[child + Off(s)] == node && m'[child + 16] == parent
      && m'[cell] == child
      && (inner != NIL ==> m'[inner + 16] == node)
      && forall x | 0 <= x < |m| && !(x == node + Off(Other(s)) || x == node + 16 || x == child + Off(s)
           || x == child + 16 || x == cell || (inner != NIL && x == inner + 16)) :: m'[x] == m[x]
  {
    hide Aligned;
  }

  /** The inner grandchild moves over to `node`. */
  method MoveInner(h: Memory, s: Side, node: int, child: int)
    requires h.Valid() && Readable(h.Mem(), node) && Readable(h.Mem(), child)
    requires var inner := h.Mem()[child + Off(s)]; Readable(h.Mem(), inner)
    modifies h.cells
    ensures var m := old(h.Mem()); var inner, m1 := m[child + Off(s)], m[node + Off(Other(s)) := m[child + Off(s)]];
      h.Mem() == if inner == NIL then m1 else m1[inner + 16 := node]
  {
    hide Aligned;
    var inner := h.Get(child + Off(s));
    h.Put(node + Off(Other(s)), inner);
    if inner != NIL {
      h.Put(inner + 16, node);
    }
  }

  method ReadChild(h: Memory, s: Side, node: int) returns (child: int)
    requires h.Valid() && Readable(h.Mem(), node)
    ensures child == h.Mem()[node + Off(Other(s))]
  {
    hide Aligned;
    child := h.Get(node + Off(Other(s)));
  }

  lemma WiredReads(m: seq<int>, s: Side, node: int, child: int, inner: int, parent: int)
    requires Wired(m, s, node, child, inner, parent)
    ensures 0 <= node && node + NODE_BYTES <= |m| && 0 <= child && child + NODE_BYTES <= |m| && 0 <= inner && inner + NODE_BYTES <= |m|
    ensures 0 <= parent && parent + NODE_BYTES <= |m|
    ensures Readable(m, node) && Readable(m, child) && Readable(m, inner)
    ensures m[node + Off(Other(s))] == child && m[child + Off(s)] == inner && m[node + 16] == parent
    ensures ApartPair(node, child) && ApartPair(child, parent)
  {
  }

  /** What the second half of a rotation finds after the first. */
  lemma InnerMoved(m: seq<int>, s: Side, node: int, child: int, inner: int, parent: int)
    requires Wired(m, s, node, child, inner, parent)
    ensures 0 <= node + Off(Other(s)) < |m| && (inner != NIL ==> 0 <= inner + 16 < |m|)
    ensures var m1 := m[node + Off(Other(s)) := inner];
      var m2 := if inner == NIL then m1 else m1[inner + 16 := node];
      && |m2| == |m| && 0 <= node && node + 16 < |m2| && m2[node + 16] == parent
      && Readable(m2, node) && Readable(m2, child) && Readable(m2, parent)
  {
    hide Aligned;
  }

  /** `rb_rotate_left` for `s == Lft`, `rb_rotate_right` for `s == Rgt`. */
  method RotateWords(h: Memory, s: Side, node: int, ghost child': int, ghost inner': int, ghost parent': int)
    requires h.Valid() && Wired(h.Mem(), s, node, child', inner', parent')
    modifies h.cells
    ensures h.Mem() == old(Rewired(h.Mem(), s, node, child', inner', parent'))
  {
    hide Wired, Aligned, PointerTo, ApartPair, Readable;
    WiredReads(h.Mem(), s, node, child', inner', parent');
    InnerMoved(h.Mem(), s, node, child', inner', parent');
    var child := ReadChild(h, s, node);
    MoveInner(h, s, node, child);
    MoveUp(h, s, node, child);
  }

  /** The child takes the place of `node`, which goes below it. */
  method MoveUp(h: Memory, s: Side, node: int, child: int)
    requires h.Valid() && Readable(h.Mem(), node) && Readable(h.Mem(), child)
    requires ApartPair(node, child)
    requires var p := h.Mem()[node + 16]; Readable(h.Mem(), p) && ApartPair(child, p)
    modifies h.cells
    ensures var m := old(h.Mem()); var m3 := m[child + 16 := m[node + 16]];
      h.Mem() == m3[PointerTo(m3, m[node + 16], node) := child][child + Off(s) := node][node + 16 := child]
  {
    hide Aligned;
    h.Put(child + 16, h.Get(node + 16));
    ReplaceChild(h, h.Get(node + 16), node, child);
    h.Put(child + Off(s), node);
    h.Put(node + 16, child);
  }

  lemma OpenedWired(m: seq<int>, ns: set<int>, s: Side, c: Ctx, q: Pair)
    requires Opened(m, ns, s, c, q)
    ensures Wired(m, s, q.p.addr, q.r.addr, Ptr(q.b), CtxPtr(c))
    ensures PointerTo(m, CtxPtr(c), q.p.addr) == HoleCell(c)
  {
    hide Aligned;
    HoleCellBound(m, c, q.p.addr);
    ChildCell(m, c, q.p.addr);
    NilReadable(m);
    assert q.b.Node? ==> q.b.item.addr in Addrs(q.b);
  }

  lemma RotateOnlyLinks(m: seq<int>, m': seq<int>, ns: set<int>, s: Side, c: Ctx, q: Pair)
    requires Opened(m, ns, s, c, q)
    requires Rotation(m, m', s, c, q)
    ensures OnlyLinks(m, m', ns)
  {
    hide Aligned;
    forall x | 0 <= x < |m| && m[x] != m'[x] ensures LinkWord(ns, x) {
      RotationLinks(m, ns, s, c, q, x);
    }
  }

  lemma RewiredRotation(m: seq<int>, ns: set<int>, s: Side, c: Ctx, q: Pair)
    requires Opened(m, ns, s, c, q) && Wired(m, s, q.p.addr, q.r.addr, Ptr(q.b), CtxPtr(c))
    requires PointerTo(m, CtxPtr(c), q.p.addr) == HoleCell(c)
    ensures var m' := Rewired(m, s, q.p.addr, q.r.addr, Ptr(q.b), CtxPtr(c));
      Turned(m, m', s, c, q) && |m| == |m'| && m'[NIL + 16] == m[NIL + 16]
  {
    hide Rewired, PointerTo, Aligned;
    RewiredWords(m, s, q.p.addr, q.r.addr, Ptr(q.b), CtxPtr(c));
    assert q.b.Node? ==> q.b.item.addr != NIL;
  }

  lemma RotateEffect(m: seq<int>, ns: set<int>, s: Side, c: Ctx, q: Pair)
    requires Rep(m, ns, c, q.Tree(s))
    ensures Wired(m, s, q.p.addr, q.r.addr, Ptr(q.b), CtxPtr(c))
    ensures var m' := Rewired(m, s, q.p.addr, q.r.addr, Ptr(q.b), CtxPtr(c));
      Rep(m', ns, c, q.Rotated(s)) && OnlyLinks(m, m', ns) && m'[NIL + 16] == m[NIL + 16]
  {
    hide Rep, Opened, OnlyLinks, RotationWord, Aligned;
    Open(m, ns, s, c, q);
    OpenedWired(m, ns, s, c, q);
    RewiredRotation(m, ns, s, c, q);
    var m' := Rewired(m, s, q.p.addr, q.r.addr, Ptr(q.b), CtxPtr(c));
    RotateRep(m, m', ns, s, c, q);
    RotateOnlyLinks(m, m', ns, s, c, q);
  }

  /** A rotation turns the tree in focus around and touches nothing else. */
  method Rotate(h: Memory, s: Side, node: int, ghost ns: set<int>, ghost c: Ctx, ghost q: Pair)
    requires h.Valid() && Rep(h.Mem(), ns, c, q.Tree(s)) && q.p.addr == node
    modifies h.cells
    ensures Rep(h.Mem(), ns, c, q.Rotated(s))
    ensures OnlyLinks(old(h.Mem()), h.Mem(), ns)
    ensures h.Mem()[NIL + 16] == old(h.Mem()[NIL + 16])
  {
    hide Aligned;
    RotateEffect(h.Mem(), ns, s, c, q);
    RotateWords(h, s, node, q.r.addr, Ptr(q.b), CtxPtr(c));
  }

  lemma RotatedInOrder(s: Side, q: Pair, q': Pair)
    requires q'.p == q.p && q'.r == q.r
    requires InOrder(q'.a) == InOrder(q.a) && InOrder(q'.b) == InOrder(q.b) && InOrder(q'.d) == InOrder(q.d)
    ensures InOrder(q'.Rotated(s)) == InOrder(q.Tree(s))
  {
    RotateInOrder(s, q.p, q.cp, q.a, q.r, q.cr, q.b, q.d, q'.cp, q'.cr);
  }
}
