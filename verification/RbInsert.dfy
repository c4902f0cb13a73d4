/** `rb_insert`: descent, attachment and recolouring. */
module RbInsert {
  import opened Common
  import opened Memlib
  import opened RbModel
  import opened RbMem
  import opened RbPaint
  import opened RbRotate

  // ---------- restoring the colours ----------

  /** The tree is red-black except that the red focus may hang below a red node. */
  predicate RedRed(c: Ctx, t: Tree) {
    Red(t) && Even(t) && CtxEven(c, Black(t))
  }

  /** The parent is red and its parent black; `s` is the side of the parent. */
  predicate RedParent(c: Ctx, s: Side) {
    c.Frame? && c.red && c.up.Frame? && !c.up.red && c.up.side == s
  }

  function Recoloured(c: Ctx, t: Tree): Tree
    requires c.Frame? && c.up.Frame?
  {
    Mk(c.up.side, c.up.item, true, Mk(c.side, c.item, false, t, c.sib), Paint(c.up.sib, false))
  }

  lemma RecolouredRB(c: Ctx, t: Tree, s: Side)
    requires RedRed(c, t) && RedParent(c, s) && Red(c.up.sib)
    ensures RedRed(c.up.up, Recoloured(c, t))
    ensures InOrder(Plug(c.up.up, Recoloured(c, t))) == InOrder(Plug(c, t))
  {
    assert CtxEven(c.up, Black(t)) && CtxEven(c.up.up, Black(t) + 1);
    var p := Mk(c.side, c.item, c.red, t, c.sib);
    var p' := Mk(c.side, c.item, false, t, c.sib);
    assert InOrder(p) == InOrder(p');
    SamePlug(c.up.up, Mk(s, c.up.item, c.up.red, p, c.up.sib), Recoloured(c, t));
    assert Even(p') && Black(p') == Black(t) + 1;
  }

  /** Red uncle: the red node moves up to the grandparent. */
  method InsertRecolour(h: Memory, parent: int, sib: int, grand: int, ghost s: Side, ghost ns: set<int>, ghost c: Ctx, ghost t: Tree)
    requires h.Valid() && Rep(h.Mem(), ns, c, t) && RedParent(c, s) && c.up.sib.Node?
    requires c.item.addr == parent && c.up.item.addr == grand && c.up.sib.item.addr == sib
    modifies h.cells
    ensures Rep(h.Mem(), ns, c.up.up, Recoloured(c, t))
    ensures OnlyLinks(old(h.Mem()), h.Mem(), ns)
  {
    hide Rep;
    SetParent(h, parent, false, ns, c, t);
    ghost var p := Mk(c.side, c.item, false, t, c.sib);
    Up(h.Mem(), ns, c.(red := false), t);
    SetSibling(h, sib, false, ns, c.up, p);
    ghost var g := c.up.(sib := Paint(c.up.sib, false));
    SetParent(h, grand, true, ns, g, p);
    Up(h.Mem(), ns, g.(red := true), p);
  }

  /** The pair turned in the zigzag case: the parent and the focus on its inner side. */
  function InnerPair(c: Ctx, t: Tree): (q: Pair)
    requires c.Frame? && t.Node?
    ensures q.Tree(Other(c.side)) == Mk(c.side, c.item, c.red, t, c.sib)
  {
    var s := Other(c.side);
    Pair(c.item, c.red, c.sib, t.item, t.red, Kid(t, s), Kid(t, Other(s)))
  }

  function Unbent(c: Ctx, t: Tree): (Ctx, Tree)
    requires c.Frame? && t.Node?
  {
    var s, q := Other(c.side), InnerPair(c, t);
    (Frame(s, q.r, q.cr, q.d, c.up), Mk(s, q.p, q.cp, q.a, q.b))
  }

  lemma UnbentRB(c: Ctx, t: Tree, s: Side)
    requires RedRed(c, t) && RedParent(c, s) && c.side != s
    ensures var (c', t') := Unbent(c, t);
      RedRed(c', t') && RedParent(c', s) && c'.side == s && c'.up == c.up && InOrder(Plug(c', t')) == InOrder(Plug(c, t))
  {
    var q := InnerPair(c, t);
    RotatedInOrder(s, q, q);
    SamePlug(c.up, q.Tree(s), q.Rotated(s));
  }

  /** Zigzag: rotate the parent so that the two red nodes are on the same side. */
  method InsertUnbend(h: Memory, s: Side, parent: int, ghost ns: set<int>, ghost c: Ctx, ghost t: Tree)
    requires h.Valid() && Rep(h.Mem(), ns, c, t) && c.Frame? && t.Node? && c.side == Other(s) && c.item.addr == parent
    modifies h.cells
    ensures Rep(h.Mem(), ns, Unbent(c, t).0, Unbent(c, t).1)
    ensures OnlyLinks(old(h.Mem()), h.Mem(), ns)
  {
    hide Rep;
    Up(h.Mem(), ns, c, t);
    Rotate(h, s, parent, ns, c.up, InnerPair(c, t));
    Down(h.Mem(), ns, c.up, InnerPair(c, t).Rotated(s), s);
  }

  function OuterPair(c: Ctx, t: Tree): (q: Pair)
    requires c.Frame? && c.up.Frame? && c.side == c.up.side
    ensures q.Tree(Other(c.side)) == Mk(c.side, c.up.item, true, Mk(c.side, c.item, false, t, c.sib), c.up.sib)
  {
    Pair(c.up.item, true, c.up.sib, c.item, false, c.sib, t)
  }

  function Turned(c: Ctx, t: Tree): Ctx
    requires c.Frame? && c.up.Frame? && c.side == c.up.side
  {
    var o, q := Other(c.side), OuterPair(c, t);
    Frame(c.side, q.r, q.cr, Mk(o, q.p, q.cp, q.a, q.b), c.up.up)
  }

  lemma TurnedRB(c: Ctx, t: Tree, s: Side)
    requires RedRed(c, t) && RedParent(c, s) && c.side == s && !Red(c.up.sib)
    ensures RedRed(Turned(c, t), t) && AllowsRed(Turned(c, t))
    ensures InOrder(Plug(Turned(c, t), t)) == InOrder(Plug(c, t))
  {
    assert CtxEven(c.up, Black(t)) && CtxEven(c.up.up, Black(t) + 1);
    var o, q := Other(s), OuterPair(c, t);
    RotatedInOrder(o, q, q);
    assert InOrder(Mk(s, c.item, c.red, t, c.sib)) == InOrder(Mk(s, c.item, false, t, c.sib));
    SamePlug(c.up.up, Mk(s, c.up.item, c.up.red, Mk(s, c.item, c.red, t, c.sib), c.up.sib), q.Rotated(o));
  }

  /** Black uncle, both red nodes on the same side: rotate the grandparent. */
  method InsertTurn(h: Memory, s: Side, parent: int, grand: int, ghost ns: set<int>, ghost c: Ctx, ghost t: Tree)
    requires h.Valid() && Rep(h.Mem(), ns, c, t) && RedParent(c, s) && c.side == s
    requires c.item.addr == parent && c.up.item.addr == grand
    modifies h.cells
    ensures Rep(h.Mem(), ns, Turned(c, t), t)
    ensures OnlyLinks(old(h.Mem()), h.Mem(), ns)
  {
    hide Rep;
    SetParent(h, parent, false, ns, c, t);
    ghost var p := Mk(s, c.item, false, t, c.sib);
    Up(h.Mem(), ns, c.(red := false), t);
    SetParent(h, grand, true, ns, c.up, p);
    Up(h.Mem(), ns, c.up.(red := true), p);
    Rotate(h, Other(s), grand, ns, c.up.up, OuterPair(c, t));
    Down(h.Mem(), ns, c.up.up, OuterPair(c, t).Rotated(Other(s)), s);
  }

  /** What the source reads at the start of an iteration. */
  lemma InsertReads(m: seq<int>, ns: set<int>, c: Ctx, t: Tree)
    requires Rep(m, ns, c, t) && t.Node?
    ensures NODE_BYTES <= t.item.addr && Readable(m, t.item.addr) && m[t.item.addr + 16] == CtxPtr(c)
    ensures Readable(m, CtxPtr(c))
    ensures m[CtxPtr(c) + 20] == 0 <==> !(c.Frame? && c.red)
  {
  }

  lemma GrandReads(m: seq<int>, ns: set<int>, c: Ctx, t: Tree, s: Side)
    requires Rep(m, ns, c, t) && t.Node? && RedParent(c, s)
    ensures var p, g := c.item.addr, c.up.item.addr;
      && NODE_BYTES <= p && Readable(m, p) && m[p + 16] == g
      && NODE_BYTES <= g && Readable(m, g)
      && (m[g + 8] == p <==> s == Lft)
      && m[g + Off(Other(s))] == Ptr(c.up.sib)
      && Readable(m, Ptr(c.up.sib)) && m[Ptr(c.up.sib) + 20] == RedWord(Red(c.up.sib))
      && (m[p + Off(Other(s))] == t.item.addr <==> c.side != s)
  {
    hide Aligned;
    ParentWords(m, ns, c, t);
    SideOfNode(m, ns, c, t, Other(s));
    Up(m, ns, c, t);
    var pt := Mk(c.side, c.item, c.red, t, c.sib);
    SideOfNode(m, ns, c.up, pt, Lft);
    ParentWords(m, ns, c.up, pt);
    ColourOf(m, c.up.sib, c.up.item.addr);
  }

  /** The loop state of `rb_insert` while it restores the colours. */
  ghost predicate InsertInv(m: seq<int>, ns: set<int>, node: int, c: Ctx, t: Tree, xs: seq<Item>) {
    Rep(m, ns, c, t) && RedRed(c, t) && t.item.addr == node && InOrder(Plug(c, t)) == xs
  }

  /** Black uncle: one or two rotations and the tree is red-black. */
  method InsertRotate(h: Memory, s: Side, start: int, ghost ns: set<int>, ghost c: Ctx, ghost t: Tree)
    returns (node: int, ghost c': Ctx, ghost t': Tree)
    requires h.Valid() && Rep(h.Mem(), ns, c, t) && t.Node? && t.item.addr == start
    requires RedRed(c, t) && RedParent(c, s) && !Red(c.up.sib)
    modifies h.cells
    ensures Rep(h.Mem(), ns, c', t') && RedRed(c', t') && t'.item.addr == node
    ensures InOrder(Plug(c', t')) == InOrder(Plug(c, t)) && Depth(c') == Depth(c.up)
    ensures OnlyLinks(old(h.Mem()), h.Mem(), ns)
  {
    hide Rep, RedRed, InOrder, Plug, Aligned, OnlyLinks;
    ghost var m0 := h.Mem();
    InsertReads(m0, ns, c, t);
    GrandReads(m0, ns, c, t, s);
    OnlyLinksSame(m0, ns);
    node, c', t' := start, c, t;
    var parent := h.Get(node + 16);
    if node == h.Get(parent + Off(Other(s))) {
      UnbentRB(c, t, s);
      node := parent;
      InsertUnbend(h, s, node, ns, c, t);
      c', t' := Unbent(c, t).0, Unbent(c, t).1;
      InsertReads(h.Mem(), ns, c', t');
      GrandReads(h.Mem(), ns, c', t', s);
    }
    TurnedRB(c', t', s);
    ghost var m1 := h.Mem();
    parent := h.Get(node + 16);
    InsertTurn(h, s, parent, h.Get(parent + 16), ns, c', t');
    OnlyLinksTrans(m0, m1, h.Mem(), ns);
    c' := Turned(c', t');
  }

  /** One iteration; `s` is the side on which the parent hangs. */
  method InsertIteration(h: Memory, s: Side, start: int, ghost ns: set<int>, ghost c: Ctx, ghost t: Tree, ghost xs: seq<Item>)
    returns (node: int, ghost c': Ctx, ghost t': Tree)
    requires h.Valid() && t.Node? && InsertInv(h.Mem(), ns, start, c, t, xs) && RedParent(c, s)
    modifies h.cells
    ensures InsertInv(h.Mem(), ns, node, c', t', xs) && Depth(c') < Depth(c)
    ensures OnlyLinks(old(h.Mem()), h.Mem(), ns)
  {
    hide Rep, RedRed, InOrder, Plug, OnlyLinks, Aligned;
    InsertReads(h.Mem(), ns, c, t);
    GrandReads(h.Mem(), ns, c, t, s);
    var parent := h.Get(start + 16);
    var grand := h.Get(parent + 16);
    var sib := h.Get(grand + Off(Other(s)));
    if h.Get(sib + 20) != 0 {
      RecolouredRB(c, t, s);
      InsertRecolour(h, parent, sib, grand, s, ns, c, t);
      node, c', t' := grand, c.up.up, Recoloured(c, t);
    } else {
      node, c', t' := InsertRotate(h, s, start, ns, c, t);
    }
  }

  /** The second half of `rb_insert`: the new red node is in place, restore the colours. */
  method InsertFix(h: Memory, start: int, ghost ns: set<int>, ghost c0: Ctx, ghost t0: Tree) returns (ghost w: Tree)
    requires h.Valid() && Rep(h.Mem(), ns, c0, t0) && RedRed(c0, t0) && t0.item.addr == start
    modifies h.cells
    ensures Rep(h.Mem(), ns, Top, w) && RB(w) && InOrder(w) == InOrder(Plug(c0, t0))
    ensures OnlyLinks(old(h.Mem()), h.Mem(), ns)
  {
    hide InsertInv, Rep, RB, InOrder, Plug, Aligned, OnlyLinks;
    ghost var m0, xs := h.Mem(), InOrder(Plug(c0, t0));
    InsertStart(m0, ns, start, c0, t0);
    OnlyLinksSame(m0, ns);
    var node := start;
    ghost var c, t := c0, t0;
    InsertGuard(h.Mem(), ns, node, c, t, xs);
    while h.Get(h.Get(node + 16) + 20) != 0
      invariant InsertInv(h.Mem(), ns, node, c, t, xs)
      invariant Readable(h.Mem(), node)
      invariant Readable(h.Mem(), h.Mem()[node + 16])
      invariant OnlyLinks(m0, h.Mem(), ns)
      decreases Depth(c)
    {
      InsertGuard(h.Mem(), ns, node, c, t, xs);
      ghost var m1 := h.Mem();
      var parent := h.Get(node + 16);
      if parent == h.Get(h.Get(parent + 16) + 8) {
        node, c, t := InsertIteration(h, Lft, node, ns, c, t, xs);
      } else {
        node, c, t := InsertIteration(h, Rgt, node, ns, c, t, xs);
      }
      OnlyLinksTrans(m0, m1, h.Mem(), ns);
      InsertGuard(h.Mem(), ns, node, c, t, xs);
    }
    InsertGuard(h.Mem(), ns, node, c, t, xs);
    InsertEnd(h.Mem(), ns, node, c, t, xs);
    OnlyLinksTrans(m0, h.Mem(), h.Mem()[h.Mem()[NIL + 8] + 20 := 0], ns);
    h.Put(h.Get(NIL + 8) + 20, 0);
    w := Plug(c, if c.Top? then Paint(t, false) else t);
  }

  lemma InsertStart(m: seq<int>, ns: set<int>, node: int, c: Ctx, t: Tree)
    requires Rep(m, ns, c, t) && RedRed(c, t) && t.item.addr == node
    ensures InsertInv(m, ns, node, c, t, InOrder(Plug(c, t)))
  {
  }

  lemma InsertGuard(m: seq<int>, ns: set<int>, node: int, c: Ctx, t: Tree, xs: seq<Item>)
    requires InsertInv(m, ns, node, c, t, xs)
    ensures t.Node? && Readable(m, node)
    ensures Readable(m, m[node + 16])
    ensures m[m[node + 16] + 20] == 0 ==> !(c.Frame? && c.red)
    ensures var p := m[node + 16]; m[p + 20] != 0 ==>
      var g := m[p + 16]; Readable(m, g) && RedParent(c, if p == m[g + 8] then Lft else Rgt)
  {
    hide Aligned;
    InsertReads(m, ns, c, t);
    if c.Frame? && c.red {
      GrandReads(m, ns, c, t, c.up.side);
    }
  }

  /** The final write: the root turns black. */
  lemma InsertEnd(m: seq<int>, ns: set<int>, node: int, c: Ctx, t: Tree, xs: seq<Item>)
    requires InsertInv(m, ns, node, c, t, xs) && !(c.Frame? && c.red)
    ensures Readable(m, NIL) && Readable(m, m[NIL + 8])
    ensures var m', w := m[m[NIL + 8] + 20 := 0], Plug(c, if c.Top? then Paint(t, false) else t);
      Rep(m', ns, Top, w) && RB(w) && InOrder(w) == xs && OnlyLinks(m, m', ns)
  {
    if c.Top? {
      PaintFocus(m, ns, c, t, false);
    } else {
      RootOfCtx(m, c, node, Black(t));
      PlugRB(c, t);
      assert m[m[NIL + 8] + 20 := 0] == m;
      UpAll(m, ns, c, t);
    }
  }

  // ---------- finding the place ----------

  /** The hole of `c` is where `i` belongs. */
  ghost predicate Fits(c: Ctx, i: Item) {
    (forall x :: x in Before(c) ==> Less(x, i)) && (forall x :: x in After(c) ==> Less(i, x))
  }

  /** In a sorted tree the root separates its two sides. */
  lemma SidesSorted(xs: seq<Item>, ys: seq<Item>, r: Item, zs: seq<Item>)
    requires Sorted(xs) && xs == ys + [r] + zs
    ensures Sorted(ys) && Sorted(zs) && (forall x :: x in ys ==> Less(x, r)) && (forall x :: x in zs ==> Less(r, x))
  {
    var k := |ys|;
    assert xs[k] == r && (forall j :: 0 <= j < k ==> xs[j] == ys[j]) && (forall j :: 0 <= j < |zs| ==> xs[k + 1 + j] == zs[j]);
  }

  /** Going past a node keeps the hole in the right place. */
  lemma FitsBelow(c: Ctx, t: Tree, i: Item, s: Side)
    requires Fits(c, i) && t.Node? && Sorted(InOrder(t))
    requires if s == Lft then Less(i, t.item) else Less(t.item, i)
    ensures Fits(Frame(s, t.item, t.red, Kid(t, Other(s)), c), i)
    ensures Sorted(InOrder(Kid(t, s)))
  {
    SidesSorted(InOrder(t), InOrder(t.left), t.item, InOrder(t.right));
    hide Sorted, InOrder;
  }

  ghost predicate DescendInv(m: seq<int>, ns: set<int>, c: Ctx, t: Tree, w: Tree, i: Item) {
    Rep(m, ns, c, t) && Plug(c, t) == w && Fits(c, i) && Sorted(InOrder(t))
  }

  /** The first loop of `rb_insert`: at most one iteration per level of the tree. */
  method Descend(h: Memory, node: int, ghost ns: set<int>, ghost w: Tree, ghost i: Item)
    returns (parent: int, ghost c: Ctx, ghost nodes: seq<int>)
    requires h.Valid() && NilAt(h.Mem()) && DescendInv(h.Mem(), ns, Top, w, w, i)
    requires i.addr == node && node !in ns && Readable(h.Mem(), node)
    requires i.size % 8 == 0 && h.Mem()[node + 4] == i.size + 1
    ensures DescendInv(h.Mem(), ns, c, Leaf, w, i) && CtxPtr(c) == parent
    ensures Walk(h.Mem(), nodes) && |nodes| - 1 <= Height(w) && forall i :: 0 <= i < |nodes| - 1 ==> nodes[i] in ns
  {
    hide DescendInv, Masked, Aligned, Trail;
    MaskedTag(i.size);
    NilReadable(h.Mem());
    TrailStart(h.Mem());
    DescendReads(h.Mem(), ns, Top, w, w, i);
    parent, c := NIL, Top;
    var child := h.Get(NIL + 8);
    nodes := [child];
    ghost var t := w;
    while child != NIL
      invariant DescendInv(h.Mem(), ns, c, t, w, i) && Ptr(t) == child && CtxPtr(c) == parent
      invariant nodes != [] && |nodes| - 1 + Height(t) <= Height(w) && Trail(h.Mem(), nodes) && nodes[|nodes| - 1] == child
      invariant forall i :: 0 <= i < |nodes| - 1 ==> nodes[i] in ns
      decreases t
    {
      DescendReads(h.Mem(), ns, c, t, w, i);
      parent := child;
      ghost var s: Side;
      if Masked(h.Get(child + 4)) > Masked(h.Get(node + 4)) {
        child, s := h.Get(child + 8), Lft;
      } else if Masked(h.Get(child + 4)) == Masked(h.Get(node + 4)) {
        if child > node {
          child, s := h.Get(child + 8), Lft;
        } else {
          child, s := h.Get(child + 12), Rgt;
        }
      } else {
        child, s := h.Get(child + 12), Rgt;
      }
      TrailNext(h.Mem(), nodes, child);
      nodes := nodes + [child];
      DescendStep(h.Mem(), ns, c, t, w, i, s);
      c, t := Frame(s, t.item, t.red, Kid(t, Other(s)), c), Kid(t, s);
    }
    DescendReads(h.Mem(), ns, c, t, w, i);
  }

  lemma DescendStep(m: seq<int>, ns: set<int>, c: Ctx, t: Tree, w: Tree, i: Item, s: Side)
    requires DescendInv(m, ns, c, t, w, i) && t.Node?
    requires if s == Lft then Less(i, t.item) else Less(t.item, i)
    ensures DescendInv(m, ns, Frame(s, t.item, t.red, Kid(t, Other(s)), c), Kid(t, s), w, i)
  {
    FitsBelow(c, t, i, s);
    Down(m, ns, c, t, s);
  }

  lemma DescendReads(m: seq<int>, ns: set<int>, c: Ctx, t: Tree, w: Tree, i: Item)
    requires DescendInv(m, ns, c, t, w, i)
    ensures NODE_BYTES <= |m| && (c.Top? ==> m[NIL + 8] == Ptr(t))
    ensures Ptr(t) == NIL <==> t == Leaf
    ensures t.Node? ==>
      && t.item.addr in ns
      && NODE_BYTES <= t.item.addr && Readable(m, t.item.addr)
      && Masked(m[t.item.addr + 4]) == t.item.size
      && m[t.item.addr + 8] == Ptr(t.left) && m[t.item.addr + 12] == Ptr(t.right)
  {
    if t.Node? {
      MaskedTag(t.item.size);
    }
    hide Masked, Aligned;
  }

  // ---------- attaching the node ----------

  /** Only the words of block `i` and the hole differ. */
  ghost predicate AttachFrame(m: seq<int>, m': seq<int>, c: Ctx, i: Item) {
    |m| == |m'| && forall x :: 0 <= x < |m| && !(i.addr + 8 <= x < i.addr + NODE_BYTES) && x != HoleCell(c) ==> m[x] == m'[x]
  }

  /** `node` becomes a red leaf in the hole of `c`. */
  lemma Attached(m: seq<int>, m': seq<int>, ns: set<int>, c: Ctx, i: Item)
    requires Rep(m, ns, c, Leaf) && i.addr !in ns && Apart(ns + {i.addr}) && AttachFrame(m, m', c, i)
    requires NodeAt(m', i, true, NIL, NIL, CtxPtr(c))
    requires 0 <= HoleCell(c) < |m'| ==> m'[HoleCell(c)] == i.addr
    ensures Rep(m', ns + {i.addr}, c, Node(i, true, Leaf, Leaf))
    ensures OnlyLinks(m, m', ns + {i.addr})
  {
    AttachedCtx(m, m', ns, c, i);
    AttachedLinks(m, m', ns, c, i);
    hide CtxAt, NilAt, NodeAt, AttachFrame, OnlyLinks, Apart;
    var t := Node(i, true, Leaf, Leaf);
    assert Addrs(t) == {i.addr} && Uniq(t);
    assert Partition(ns + {i.addr}, c, t);
    assert TreeAt(m', t, CtxPtr(c));
  }

  lemma AttachedCtx(m: seq<int>, m': seq<int>, ns: set<int>, c: Ctx, i: Item)
    requires CtxAt(m, c, NIL) && NilAt(m) && CtxUniq(c) && CtxAddrs(c) <= ns
    requires i.addr !in ns && Apart(ns + {i.addr}) && AttachFrame(m, m', c, i)
    requires 0 <= HoleCell(c) < |m'| ==> m'[HoleCell(c)] == i.addr
    ensures CtxAt(m', c, i.addr) && NilAt(m')
  {
    HoleCellBound(m, c, NIL);
    AttachedNil(m, m', ns, c, i);
    hide CtxAt, NilAt, HoleCell, Aligned;
    forall a, x | a in CtxAddrs(c) && a + 4 <= x < a + NODE_BYTES && x < |m| && x != HoleCell(c) ensures m[x] == m'[x] {
      NodeOf(ns + {i.addr}, a, x, i.addr);
    }
    CtxFrame(m, m', ns, c, NIL, i.addr);
  }

  lemma AttachedNil(m: seq<int>, m': seq<int>, ns: set<int>, c: Ctx, i: Item)
    requires NilAt(m) && CtxAddrs(c) <= ns && Apart(ns + {i.addr}) && AttachFrame(m, m', c, i)
    ensures NilAt(m') && (c.Frame? ==> m[NIL + 8] == m'[NIL + 8]) && |m| == |m'| && Apart(ns)
  {
    assert i.addr in ns + {i.addr} && forall a :: a in ns ==> a in ns + {i.addr};
    assert c.Frame? ==> c.item.addr in CtxAddrs(c) && c.item.addr in ns;
  }

  lemma AttachedLinks(m: seq<int>, m': seq<int>, ns: set<int>, c: Ctx, i: Item)
    requires CtxAddrs(c) <= ns && AttachFrame(m, m', c, i)
    ensures OnlyLinks(m, m', ns + {i.addr})
  {
    assert i.addr in ns + {i.addr} && (c.Frame? ==> c.item.addr in CtxAddrs(c) && c.item.addr in ns + {i.addr});
  }

  /** The heap after the node was linked and coloured. */
  lemma PlacedWords(m: seq<int>, ns: set<int>, c: Ctx, i: Item)
    requires Readable(m, i.addr) && i.addr !in ns && Apart(ns + {i.addr}) && (c.Frame? ==> c.item.addr in ns) && 0 <= HoleCell(c) < |m|
    requires i.size % 8 == 0 && m[i.addr + 4] == i.size + 1 && m[i.addr + 8] == m[i.addr + 12] == NIL
    ensures var m' := m[i.addr + 16 := CtxPtr(c)][HoleCell(c) := i.addr][i.addr + 20 := 1];
      && NodeAt(m', i, true, NIL, NIL, CtxPtr(c)) && m'[HoleCell(c)] == i.addr && AttachFrame(m, m', c, i)
  {
    HoleOutside(ns, c, i.addr);
    hide HoleCell, Aligned, Apart;
  }

  lemma HoleOutside(ns: set<int>, c: Ctx, a: int)
    requires a !in ns && Apart(ns + {a}) && (c.Frame? ==> c.item.addr in ns)
    ensures NODE_BYTES <= a && !(a + 4 <= HoleCell(c) < a + NODE_BYTES)
  {
    NodeOf(ns + {a}, a, a + 4, a);
    if c.Frame? && a + 4 <= HoleCell(c) < a + NODE_BYTES {
      NodeOf(ns + {a}, a, HoleCell(c), c.item.addr);
    }
  }

  /** What decides on which side of `parent` the node is hung. */
  lemma AttachReads(m: seq<int>, ns: set<int>, c: Ctx, w: Tree, i: Item)
    requires DescendInv(m, ns, c, Leaf, w, i) && i.addr !in ns
    ensures NODE_BYTES <= |m| && 0 <= HoleCell(c) && HoleCell(c) + 4 <= |m| && Aligned(HoleCell(c))
    ensures c.Frame? ==>
      && NODE_BYTES <= c.item.addr && Readable(m, c.item.addr) && c.item.addr in ns
      && c.item.size % 8 == 0 && m[c.item.addr + 4] == c.item.size + 1
      && (if c.side == Lft then Less(i, c.item) else Less(c.item, i))
  {
    HoleCellBound(m, c, NIL);
    if c.Frame? {
      assert if c.side == Lft then c.item in After(c) else c.item in Before(c);
    }
  }

  /** The word in which `rb_insert` stores the new node. */
  method AttachCell(h: Memory, node: int, parent: int, ghost ns: set<int>, ghost c: Ctx, ghost w: Tree, ghost i: Item)
    returns (cell: int)
    requires h.Valid() && DescendInv(h.Mem(), ns, c, Leaf, w, i) && CtxPtr(c) == parent
    requires i.addr == node && node !in ns && Readable(h.Mem(), node)
    requires i.size % 8 == 0 && h.Mem()[node + 4] == i.size + 1
    ensures cell == HoleCell(c)
  {
    hide DescendInv;
    AttachReads(h.Mem(), ns, c, w, i);
    if parent == NIL || Masked(h.Get(parent + 4)) > Masked(h.Get(node + 4)) {
      cell := parent + 8;
    } else if Masked(h.Get(parent + 4)) == Masked(h.Get(node + 4)) {
      if parent > node {
        cell := parent + 8;
      } else {
        cell := parent + 12;
      }
    } else {
      cell := parent + 12;
    }
  }

  /** Where in the order the new block belongs. */
  ghost predicate InsertedAt(xs: seq<Item>, k: nat, i: Item, ys: seq<Item>) {
    k <= |xs| && ys == xs[..k] + [i] + xs[k..]
  }

  lemma InsertedOrder(c: Ctx, i: Item)
    requires Fits(c, i) && Sorted(InOrder(Plug(c, Leaf)))
    ensures InsertedAt(InOrder(Plug(c, Leaf)), |Before(c)|, i, InOrder(Plug(c, Node(i, true, Leaf, Leaf))))
    ensures Sorted(InOrder(Plug(c, Node(i, true, Leaf, Leaf))))
  {
    PlugInOrder(c, Leaf);
    PlugInOrder(c, Node(i, true, Leaf, Leaf));
    var xs := InOrder(Plug(c, Leaf));
    assert xs == Before(c) + After(c);
    assert xs[..|Before(c)|] == Before(c) && xs[|Before(c)|..] == After(c);
    var ys := Before(c) + [i] + After(c);
    forall j, k | 0 <= j < k < |ys| ensures Less(ys[j], ys[k]) {
      SortedGap(Before(c), i, After(c), j, k);
    }
  }

  lemma SortedGap(xs: seq<Item>, i: Item, zs: seq<Item>, j: nat, k: nat)
    requires Sorted(xs + zs)
    requires (forall x :: x in xs ==> Less(x, i)) && (forall x :: x in zs ==> Less(i, x))
    requires j < k < |xs| + 1 + |zs|
    ensures Less((xs + [i] + zs)[j], (xs + [i] + zs)[k])
  {
    var ys, ws := xs + [i] + zs, xs + zs;
    assert ys[j] == if j < |xs| then ws[j] else if j == |xs| then i else ws[j - 1];
    assert ys[k] == if k < |xs| then ws[k] else if k == |xs| then i else ws[k - 1];
    assert j < |xs| ==> xs[j] in xs && ys[j] == xs[j];
    assert k > |xs| ==> zs[k - |xs| - 1] in zs && ys[k] == zs[k - |xs| - 1];
  }

  method ClearChildren(h: Memory, node: int, ghost ns: set<int>, ghost w: Tree, ghost i: Item)
    requires h.Valid() && Rep(h.Mem(), ns, Top, w) && Sorted(InOrder(w))
    requires i.addr == node && node !in ns && Apart(ns + {node}) && NODE_BYTES <= node && Readable(h.Mem(), node)
    requires h.Mem()[node + 4] == i.size + 1
    modifies h.cells
    ensures NilAt(h.Mem()) && DescendInv(h.Mem(), ns, Top, w, w, i)
    ensures h.Mem()[node + 4] == i.size + 1 && h.Mem()[node + 8] == h.Mem()[node + 12] == NIL
    ensures OnlyLinks(old(h.Mem()), h.Mem(), ns + {node}) && h.Mem()[NIL + 8] == old(h.Mem())[NIL + 8]
    ensures forall a :: a in ns ==> SameNode(old(h.Mem()), h.Mem(), a)
  {
    hide Aligned;
    ghost var m := h.Mem();
    h.Put(node + 12, NIL);
    h.Put(node + 8, NIL);
    assert node in ns + {node};
    forall a | a in ns ensures SameNode(m, h.Mem(), a) {
      assert a in ns + {node};
    }
    RepFrame(m, h.Mem(), ns, Top, w);
  }

  /** Link the node below its parent and colour it red. */
  method Place(h: Memory, node: int, parent: int, ghost ns: set<int>, ghost c: Ctx, ghost w: Tree, ghost i: Item)
    requires h.Valid() && DescendInv(h.Mem(), ns, c, Leaf, w, i) && CtxPtr(c) == parent
    requires i.addr == node && node !in ns && Apart(ns + {node}) && NODE_BYTES <= node && Readable(h.Mem(), node)
    requires i.size % 8 == 0 && h.Mem()[node + 4] == i.size + 1 && h.Mem()[node + 8] == h.Mem()[node + 12] == NIL
    modifies h.cells
    ensures Rep(h.Mem(), ns + {node}, c, Node(i, true, Leaf, Leaf))
    ensures OnlyLinks(old(h.Mem()), h.Mem(), ns + {node})
  {
    hide DescendInv, Rep, Aligned, HoleCell, NodeAt, AttachFrame, Apart, OnlyLinks;
    ghost var m := h.Mem();
    AttachReads(m, ns, c, w, i);
    PlacedWords(m, ns, c, i);
    var cell := AttachCell(h, node, parent, ns, c, w, i);
    h.Put(node + 16, parent);
    h.Put(cell, node);
    h.Put(node + 20, 1);
    DescendRep(m, ns, c, w, i);
    Attached(m, h.Mem(), ns, c, i);
  }

  lemma DescendRep(m: seq<int>, ns: set<int>, c: Ctx, w: Tree, i: Item)
    requires DescendInv(m, ns, c, Leaf, w, i)
    ensures Rep(m, ns, c, Leaf) && Plug(c, Leaf) == w && Fits(c, i)
  {
  }

  lemma InsertPrepared(m: seq<int>, ns: set<int>, w: Tree, i: Item)
    requires Rep(m, ns, Top, w) && Sorted(InOrder(w))
    ensures NilAt(m) && DescendInv(m, ns, Top, w, w, i)
  {
  }

  lemma PlacedRB(c: Ctx, i: Item)
    requires RB(Plug(c, Leaf))
    ensures RedRed(c, Node(i, true, Leaf, Leaf))
  {
    PlugRB(c, Leaf);
  }

  /** `rb_insert`: the block joins the tree at its place in the order; the tree stays red-black.
      With n nodes the descent takes at most 2 log2(n + 1) iterations. */
  method Insert(h: Memory, node: int, ghost ns: set<int>, ghost w: Tree, ghost i: Item)
    returns (ghost w': Tree, ghost k: nat, ghost nodes: seq<int>)
    requires h.Valid() && Rep(h.Mem(), ns, Top, w) && RB(w) && Sorted(InOrder(w))
    requires i.addr == node && node !in ns && Apart(ns + {node}) && NODE_BYTES <= node && Readable(h.Mem(), node)
    requires i.size % 8 == 0 && h.Mem()[node + 4] == i.size + 1
    modifies h.cells
    ensures Rep(h.Mem(), ns + {node}, Top, w') && RB(w') && Sorted(InOrder(w'))
    ensures InsertedAt(InOrder(w), k, i, InOrder(w'))
    ensures OnlyLinks(old(h.Mem()), h.Mem(), ns + {node})
    ensures old(Walk(h.Mem(), nodes)) && var n := |InOrder(w)|; Pow2(|nodes| - 1) <= (n + 1) * (n + 1)
  {
    hide Rep, RB, DescendInv, InOrder, Plug, Sorted, InsertedAt, RedRed, Fits, Pow2, SameNode, Below;
    ghost var m0, all := h.Mem(), ns + {node};
    InsertPrepared(m0, ns, w, i);
    ClearChildren(h, node, ns, w, i);
    var parent;
    ghost var c;
    parent, c, nodes := Descend(h, node, ns, w, i);
    LogSteps(w, |nodes| - 1);
    WalkSame(m0, h.Mem(), ns, nodes);
    ghost var m1 := h.Mem();
    DescendRep(m1, ns, c, w, i);
    Place(h, node, parent, ns, c, w, i);
    ghost var m2 := h.Mem();
    InsertedOrder(c, i);
    PlacedRB(c, i);
    w' := InsertFix(h, node, all, c, Node(i, true, Leaf, Leaf));
    OnlyLinksTrans(m0, m1, m2, all);
    OnlyLinksTrans(m0, m2, h.Mem(), all);
    k := |Before(c)|;
  }
}
