/** How a red-black tree lies in the heap words of `mm_rbtree_ref.c`.
    Everything here is about heap contents as a value `m`. */
module RbMem {
  import opened Memlib
  import opened RbModel

  /** `rb_root` and `rb_null` are one node, allocated at the start of the heap. */
  const NIL := 0
  const NODE_BYTES := 24

  function Off(s: Side): int {
    if s == Lft then 8 else 12
  }

  function Ptr(t: Tree): int {
    if t.Leaf? then NIL else t.item.addr
  }

  function CtxPtr(c: Ctx): int {
    if c.Top? then NIL else c.item.addr
  }

  /** The word that holds the pointer into the hole. The root pointer is the left field of nil. */
  function HoleCell(c: Ctx): int {
    if c.Top? then NIL + 8 else c.item.addr + Off(c.side)
  }

  /** A pointer that may be followed: to a node or to nil, aligned and inside the heap. */
  predicate Readable(m: seq<int>, p: int) {
    && 0 <= p && p + NODE_BYTES <= |m|
    && Aligned(p) && Aligned(p + 4) && Aligned(p + 8) && Aligned(p + 12) && Aligned(p + 16) && Aligned(p + 20)
  }

  lemma NilReadable(m: seq<int>)
    requires NODE_BYTES <= |m|
    ensures Readable(m, NIL)
  {
  }

  function RedWord(red: bool): int {
    if red then 1 else 0
  }

  /** The words of node `i`: size with the free bit, children, parent, colour. */
  ghost predicate NodeAt(m: seq<int>, i: Item, red: bool, left: int, right: int, parent: int) {
    && NODE_BYTES <= i.addr && Readable(m, i.addr)
    && i.size % 8 == 0
    && m[i.addr + 4] == i.size + 1
    && m[i.addr + 8] == left
    && m[i.addr + 12] == right
    && m[i.addr + 16] == parent
    && m[i.addr + 20] == RedWord(red)
  }

  ghost predicate TreeAt(m: seq<int>, t: Tree, parent: int) {
    match t
    case Leaf => true
    case Node(i, red, l, r) =>
      && NodeAt(m, i, red, Ptr(l), Ptr(r), parent)
      && TreeAt(m, l, i.addr) && TreeAt(m, r, i.addr)
  }

  /** The context lies in `m` and the pointer in its hole is `f`. */
  ghost predicate CtxAt(m: seq<int>, c: Ctx, f: int) {
    match c
    case Top => NODE_BYTES <= |m| && m[NIL + 8] == f
    case Frame(s, i, red, sib, up) =>
      && NodeAt(m, i, red, if s == Lft then f else Ptr(sib), if s == Lft then Ptr(sib) else f, CtxPtr(up))
      && TreeAt(m, sib, i.addr)
      && CtxAt(m, up, i.addr)
  }

  /** Nil is black and has no right child; its parent field is scratch space. */
  ghost predicate NilAt(m: seq<int>) {
    NODE_BYTES <= |m| && m[NIL + 12] == NIL && m[NIL + 20] == 0
  }

  /** The nodes do not overlap each other or nil. */
  ghost predicate Apart(ns: set<int>) {
    && (forall a :: a in ns ==> NODE_BYTES <= a)
    && (forall a, b :: a in ns && b in ns && a < b ==> a + NODE_BYTES <= b)
  }

  /** The zipper holds each node of `ns` exactly once. */
  ghost predicate Partition(ns: set<int>, c: Ctx, t: Tree) {
    CtxUniq(c) && Uniq(t) && CtxAddrs(c) !! Addrs(t) && CtxAddrs(c) + Addrs(t) == ns
  }

  /** The tree `Plug(c, t)` with nodes `ns` lies in `m`, seen from the subtree `t`. */
  ghost predicate Rep(m: seq<int>, ns: set<int>, c: Ctx, t: Tree) {
    && NilAt(m) && Apart(ns) && Partition(ns, c, t)
    && CtxAt(m, c, Ptr(t)) && TreeAt(m, t, CtxPtr(c))
  }

  /** A walk from the root down to nil. */
  ghost predicate Walk(m: seq<int>, nodes: seq<int>) {
    Trail(m, nodes) && nodes[|nodes| - 1] == NIL
  }

  /** A walk that has come to its last node. */
  ghost predicate Trail(m: seq<int>, nodes: seq<int>) {
    && nodes != [] && NODE_BYTES <= |m| && nodes[0] == m[NIL + 8]
    && forall i :: 0 < i < |nodes| ==> Below(m, nodes[i - 1], nodes[i])
  }

  /** `q` is a child of node `p`. */
  predicate Below(m: seq<int>, p: int, q: int) {
    p != NIL && 0 <= p && p + NODE_BYTES <= |m| && (q == m[p + 8] || q == m[p + 12])
  }

  lemma TrailStart(m: seq<int>)
    requires NODE_BYTES <= |m|
    ensures Trail(m, [m[NIL + 8]])
  {
  }

  lemma TrailNext(m: seq<int>, nodes: seq<int>, q: int)
    requires Trail(m, nodes) && Below(m, nodes[|nodes| - 1], q)
    ensures Trail(m, nodes + [q])
  {
    forall i | 0 < i < |nodes + [q]| ensures Below(m, (nodes + [q])[i - 1], (nodes + [q])[i]) {
    }
  }

  // ---------- which words a tree operation may write ----------

  /** Cell `x` is a link or colour word of nil or of a node in `s`. */
  ghost predicate LinkWord(s: set<int>, x: int) {
    NIL + 8 <= x < NIL + NODE_BYTES || exists a :: a in s && a + 8 <= x < a + NODE_BYTES
  }

  /** Only link and colour words of nil and of `s` differ. */
  ghost predicate OnlyLinks(m: seq<int>, m': seq<int>, s: set<int>) {
    |m| == |m'| && forall x :: 0 <= x < |m| && m[x] != m'[x] ==> LinkWord(s, x)
  }

  lemma OnlyLinksSame(m: seq<int>, ns: set<int>)
    ensures OnlyLinks(m, m, ns)
  {
  }

  lemma OnlyLinksTrans(m0: seq<int>, m1: seq<int>, m2: seq<int>, s: set<int>)
    requires OnlyLinks(m0, m1, s) && OnlyLinks(m1, m2, s)
    ensures OnlyLinks(m0, m2, s)
  {
  }

  /** A walk past nodes that are the same. */
  lemma WalkSame(m: seq<int>, m': seq<int>, ns: set<int>, nodes: seq<int>)
    requires Walk(m', nodes) && |m| == |m'| && m'[NIL + 8] == m[NIL + 8]
    requires forall a :: a in ns ==> SameNode(m, m', a)
    requires forall i :: 0 <= i < |nodes| - 1 ==> nodes[i] in ns
    ensures Walk(m, nodes)
  {
    forall i | 0 < i < |nodes| ensures Below(m, nodes[i - 1], nodes[i]) {
      assert Below(m', nodes[i - 1], nodes[i]) && SameNode(m, m', nodes[i - 1]);
    }
  }

  /** The words of node `a`, from its size word to its colour word, are the same. */
  ghost predicate SameNode(m: seq<int>, m': seq<int>, a: int) {
    |m| <= |m'| && forall x :: 0 <= x < |m| && a + 4 <= x < a + NODE_BYTES ==> m[x] == m'[x]
  }

  lemma {:induction false} TreeFrame(m: seq<int>, m': seq<int>, t: Tree, parent: int)
    requires TreeAt(m, t, parent)
    requires |m| <= |m'| && forall a :: a in Addrs(t) ==> SameNode(m, m', a)
    ensures TreeAt(m', t, parent)
  {
    hide Aligned;
    match t
    case Leaf =>
    case Node(i, red, l, r) =>
      assert SameNode(m, m', i.addr);
      TreeFrame(m, m', l, i.addr);
      TreeFrame(m, m', r, i.addr);
  }

  /** Redirecting the hole pointer of a context leaves the rest of it in place. */
  lemma {:induction false} CtxFrame(m: seq<int>, m': seq<int>, ns: set<int>, c: Ctx, f: int, f': int)
    requires CtxAt(m, c, f) && CtxUniq(c) && Apart(ns) && CtxAddrs(c) <= ns
    requires |m| <= |m'|
    requires forall a, x :: a in CtxAddrs(c) && a + 4 <= x < a + NODE_BYTES && x < |m| && x != HoleCell(c) ==> m[x] == m'[x]
    requires c.Frame? ==> m[NIL + 8] == m'[NIL + 8]
    requires HoleCell(c) < |m| ==> m'[HoleCell(c)] == f'
    ensures CtxAt(m', c, f')
  {
    hide TreeAt, NodeAt;
    match c
    case Top =>
    case Frame(s, i, red, sib, up) =>
      FrameNode(m, m', ns, c, f, f');
      SiblingFrame(m, m', ns, c, f);
      HoleCellBound(m, up, i.addr);
      assert up.Frame? ==> up.item.addr in CtxAddrs(up);
      CtxFrame(m, m', ns, up, i.addr, i.addr);
  }

  lemma FrameNode(m: seq<int>, m': seq<int>, ns: set<int>, c: Ctx, f: int, f': int)
    requires c.Frame? && CtxAt(m, c, f) && |m| <= |m'| && Apart(ns) && CtxAddrs(c) <= ns
    requires forall a, x :: a in CtxAddrs(c) && a + 4 <= x < a + NODE_BYTES && x < |m| && x != HoleCell(c) ==> m[x] == m'[x]
    requires HoleCell(c) < |m| ==> m'[HoleCell(c)] == f'
    ensures c.item.addr in CtxAddrs(c)
    ensures NodeAt(m', c.item, c.red, if c.side == Lft then f' else Ptr(c.sib), if c.side == Lft then Ptr(c.sib) else f', CtxPtr(c.up))
  {
    hide Aligned, TreeAt;
    assert c.item.addr in CtxAddrs(c);
  }

  lemma SiblingFrame(m: seq<int>, m': seq<int>, ns: set<int>, c: Ctx, f: int)
    requires c.Frame? && CtxAt(m, c, f) && CtxUniq(c) && Apart(ns) && CtxAddrs(c) <= ns
    requires |m| <= |m'|
    requires forall a, x :: a in CtxAddrs(c) && a + 4 <= x < a + NODE_BYTES && x < |m| && x != HoleCell(c) ==> m[x] == m'[x]
    ensures TreeAt(m', c.sib, c.item.addr)
  {
    hide Aligned;
    forall a | a in Addrs(c.sib) ensures SameNode(m, m', a) {
      assert a in CtxAddrs(c) && c.item.addr in CtxAddrs(c) && a != c.item.addr;
    }
    TreeFrame(m, m', c.sib, c.item.addr);
  }

  lemma HoleCellBound(m: seq<int>, c: Ctx, f: int)
    requires CtxAt(m, c, f)
    ensures 0 <= HoleCell(c) < |m| && Aligned(HoleCell(c)) && m[HoleCell(c)] == f
    ensures c.Frame? ==> c.item.addr in CtxAddrs(c)
  {
  }

  /** A tree survives any change outside its nodes and the fixed words of nil. */
  lemma RepFrame(m: seq<int>, m': seq<int>, ns: set<int>, c: Ctx, t: Tree)
    requires Rep(m, ns, c, t) && |m| <= |m'|
    requires forall a :: a in ns ==> SameNode(m, m', a)
    requires m[NIL + 8] == m'[NIL + 8] && m[NIL + 12] == m'[NIL + 12] && m[NIL + 20] == m'[NIL + 20]
    ensures Rep(m', ns, c, t)
  {
    hide Aligned;
    TreeFrame(m, m', t, CtxPtr(c));
    HoleCellBound(m, c, Ptr(t));
    forall a, x | a in CtxAddrs(c) && a + 4 <= x < a + NODE_BYTES && x < |m| ensures m[x] == m'[x] {
      assert a in ns && SameNode(m, m', a);
    }
    CtxFrame(m, m', ns, c, Ptr(t), Ptr(t));
  }

  // ---------- moving the focus ----------

  lemma Down(m: seq<int>, ns: set<int>, c: Ctx, t: Tree, s: Side)
    requires Rep(m, ns, c, t) && t.Node?
    ensures Rep(m, ns, Frame(s, t.item, t.red, Kid(t, Other(s)), c), Kid(t, s))
  {
    hide Aligned;
  }

  lemma Up(m: seq<int>, ns: set<int>, c: Ctx, t: Tree)
    requires Rep(m, ns, c, t) && c.Frame?
    ensures Rep(m, ns, c.up, Mk(c.side, c.item, c.red, t, c.sib))
  {
    hide Aligned;
  }

  /** The zipper whose focus is the sibling of the focus. */
  function AtSibling(c: Ctx, t: Tree): Ctx
    requires c.Frame?
  {
    Frame(Other(c.side), c.item, c.red, t, c.up)
  }

  lemma ToSibling(m: seq<int>, ns: set<int>, c: Ctx, t: Tree)
    requires Rep(m, ns, c, t) && c.Frame?
    ensures Rep(m, ns, AtSibling(c, t), c.sib)
  {
    hide Aligned;
    Up(m, ns, c, t);
    Down(m, ns, c.up, Mk(c.side, c.item, c.red, t, c.sib), Other(c.side));
  }

  lemma {:induction false} UpAll(m: seq<int>, ns: set<int>, c: Ctx, t: Tree)
    requires Rep(m, ns, c, t)
    ensures Rep(m, ns, Top, Plug(c, t))
  {
    hide Aligned;
    match c
    case Top =>
    case Frame(s, i, red, sib, up) =>
      Up(m, ns, c, t);
      UpAll(m, ns, up, Mk(s, i, red, t, sib));
  }

  // ---------- recolouring ----------

  lemma PaintedTree(m: seq<int>, ns: set<int>, t: Tree, parent: int, red: bool)
    requires TreeAt(m, t, parent) && t.Node? && Uniq(t) && Apart(ns) && Addrs(t) <= ns
    ensures TreeAt(m[t.item.addr + 20 := RedWord(red)], Paint(t, red), parent)
  {
    hide Aligned;
    var a := t.item.addr;
    var m' := m[a + 20 := RedWord(red)];
    forall b | b in Addrs(t.left) + Addrs(t.right) ensures SameNode(m, m', b) {
      assert a in ns && b in ns && b != a;
    }
    TreeFrame(m, m', t.left, a);
    TreeFrame(m, m', t.right, a);
  }

  lemma PaintedCtx(m: seq<int>, ns: set<int>, c: Ctx, a: int, v: int)
    requires CtxAt(m, c, a) && NilAt(m) && CtxUniq(c) && Apart(ns) && CtxAddrs(c) <= ns
    requires a in ns && a !in CtxAddrs(c) && a + 20 < |m|
    ensures NODE_BYTES <= a && CtxAt(m[a + 20 := v], c, a) && NilAt(m[a + 20 := v])
  {
    hide CtxAt, Aligned;
    HoleCellBound(m, c, a);
    CtxFrame(m, m[a + 20 := v], ns, c, a, a);
  }

  /** Repainting the root of the subtree in focus. */
  lemma PaintFocus(m: seq<int>, ns: set<int>, c: Ctx, t: Tree, red: bool)
    requires Rep(m, ns, c, t) && t.Node?
    ensures var m' := m[t.item.addr + 20 := RedWord(red)];
      Rep(m', ns, c, Paint(t, red)) && OnlyLinks(m, m', ns)
    ensures NODE_BYTES <= t.item.addr && t.item.addr + NODE_BYTES <= |m|
  {
    hide OnlyLinks, LinkWord, Aligned, CtxAt, NilAt, Apart;
    var a := t.item.addr;
    assert a in Addrs(t) && a in ns;
    PaintedCtx(m, ns, c, a, RedWord(red));
    PaintedTree(m, ns, t, CtxPtr(c), red);
    PaintLinks(m, ns, a, RedWord(red));
  }

  lemma PaintLinks(m: seq<int>, ns: set<int>, a: int, v: int)
    requires a in ns && 0 <= a && a + 20 < |m|
    ensures OnlyLinks(m, m[a + 20 := v], ns)
  {
    assert LinkWord(ns, a + 20);
  }

  /** Repainting the sibling of the focus. */
  lemma PaintSibling(m: seq<int>, ns: set<int>, c: Ctx, t: Tree, red: bool)
    requires Rep(m, ns, c, t) && c.Frame? && c.sib.Node?
    ensures var m' := m[c.sib.item.addr + 20 := RedWord(red)];
      Rep(m', ns, c.(sib := Paint(c.sib, red)), t) && OnlyLinks(m, m', ns)
  {
    hide Aligned, Rep, OnlyLinks;
    ToSibling(m, ns, c, t);
    PaintFocus(m, ns, AtSibling(c, t), c.sib, red);
    ToSibling(m[c.sib.item.addr + 20 := RedWord(red)], ns, AtSibling(c, t), Paint(c.sib, red));
  }

  /** Repainting the parent of the focus. */
  lemma PaintParent(m: seq<int>, ns: set<int>, c: Ctx, t: Tree, red: bool)
    requires Rep(m, ns, c, t) && c.Frame?
    ensures var m' := m[c.item.addr + 20 := RedWord(red)];
      Rep(m', ns, c.(red := red), t) && OnlyLinks(m, m', ns)
  {
    hide Aligned, Rep, OnlyLinks;
    Up(m, ns, c, t);
    var w := Mk(c.side, c.item, c.red, t, c.sib);
    PaintFocus(m, ns, c.up, w, red);
    Down(m[c.item.addr + 20 := RedWord(red)], ns, c.up, Paint(w, red), c.side);
  }

  /** Repainting a child of the focus. */
  lemma PaintChild(m: seq<int>, ns: set<int>, c: Ctx, t: Tree, s: Side, red: bool)
    requires Rep(m, ns, c, t) && t.Node? && Kid(t, s).Node? && TreeAt(m, Kid(t, s), t.item.addr)
    ensures var m' := m[Kid(t, s).item.addr + 20 := RedWord(red)];
      && Rep(m', ns, c, Mk(s, t.item, t.red, Paint(Kid(t, s), red), Kid(t, Other(s))))
      && OnlyLinks(m, m', ns)
  {
    hide Aligned, Rep, OnlyLinks;
    Down(m, ns, c, t, s);
    var c1 := Frame(s, t.item, t.red, Kid(t, Other(s)), c);
    PaintFocus(m, ns, c1, Kid(t, s), red);
    Up(m[Kid(t, s).item.addr + 20 := RedWord(red)], ns, c1, Paint(Kid(t, s), red));
  }

  // ---------- the root ----------

  function TopAddr(c: Ctx): int
    requires c.Frame?
  {
    if c.up.Top? then c.item.addr else TopAddr(c.up)
  }

  /** The pointer held by nil reaches the outermost frame, which is black. */
  lemma {:induction false} RootOfCtx(m: seq<int>, c: Ctx, f: int, h: nat)
    requires CtxAt(m, c, f) && c.Frame? && CtxEven(c, h)
    ensures m[NIL + 8] == TopAddr(c) && TopAddr(c) in CtxAddrs(c)
    ensures NODE_BYTES <= TopAddr(c) && Readable(m, TopAddr(c)) && m[TopAddr(c) + 20] == 0
  {
    if c.up.Frame? {
      RootOfCtx(m, c.up, c.item.addr, h + (if c.red then 0 else 1));
    }
  }

  lemma RootIsTop(m: seq<int>, ns: set<int>, c: Ctx, t: Tree, h: nat)
    requires Rep(m, ns, c, t) && CtxEven(c, h)
    ensures m[NIL + 8] == Ptr(t) <==> c.Top?
  {
    hide Aligned;
    if c.Frame? {
      RootOfCtx(m, c, Ptr(t), h);
      assert t.Node? ==> t.item.addr in Addrs(t);
    }
  }
}
