/** `rb_fix`: the tree is short of one black node on every way through the focus. */
module RbFix {
  import opened Memlib
  import opened RbModel
  import opened RbMem
  import opened RbPaint
  import opened RbRotate

  /** Red sibling: repaint and rotate, so that the sibling of the focus becomes black. */
  method FixRedSibling(h: Memory, s: Side, parent: int, sib: int, ghost ns: set<int>, ghost q: Pair, ghost up: Ctx)
    requires h.Valid() && q.p.addr == parent && q.r.addr == sib
    requires Rep(h.Mem(), ns, Frame(s, q.p, q.cp, Mk(s, q.r, q.cr, q.b, q.d), up), q.a)
    modifies h.cells
    ensures Rep(h.Mem(), ns, Frame(s, q.p, true, q.b, Frame(s, q.r, false, q.d, up)), q.a)
    ensures OnlyLinks(old(h.Mem()), h.Mem(), ns)
  {
    hide Rep;
    ghost var c := Frame(s, q.p, q.cp, Mk(s, q.r, q.cr, q.b, q.d), up);
    SetSibling(h, sib, false, ns, c, q.a);
    ghost var c1 := Frame(s, q.p, q.cp, Mk(s, q.r, false, q.b, q.d), up);
    SetParent(h, parent, true, ns, c1, q.a);
    ghost var q1 := q.(cp := true, cr := false);
    Up(h.Mem(), ns, c1.(red := true), q.a);
    Rotate(h, s, parent, ns, up, q1);
    BelowRotated(h.Mem(), ns, s, up, q1);
  }

  lemma BelowRotated(m: seq<int>, ns: set<int>, s: Side, up: Ctx, q: Pair)
    requires Rep(m, ns, up, q.Rotated(s))
    ensures Rep(m, ns, Frame(s, q.p, q.cp, q.b, Frame(s, q.r, q.cr, q.d, up)), q.a)
  {
    Down(m, ns, up, q.Rotated(s), s);
    Down(m, ns, Frame(s, q.r, q.cr, q.d, up), Mk(s, q.p, q.cp, q.a, q.b), s);
  }

  /** Black sibling whose far child is black: its red near child takes its place. */
  method FixNearNephew(h: Memory, s: Side, sib: int, ghost ns: set<int>, ghost c: Ctx, ghost t: Tree, ghost q: Pair)
    requires h.Valid() && q.p.addr == sib
    requires Rep(h.Mem(), ns, c, t) && c.Frame? && c.side == s && c.sib == q.Tree(Other(s))
    modifies h.cells
    ensures Rep(h.Mem(), ns, c.(sib := q.(cp := true, cr := false).Rotated(Other(s))), t)
    ensures OnlyLinks(old(h.Mem()), h.Mem(), ns)
  {
    hide Rep, Aligned;
    var o := Other(s);
    ghost var c1 := AtSibling(c, t);
    ToSibling(h.Mem(), ns, c, t);
    OpenNode(h.Mem(), ns, c1, c.sib);
    SetChild(h, h.Get(sib + Off(s)), false, ns, c1, c.sib, s);
    SetFocus(h, sib, true, ns, c1, q.(cr := false).Tree(o));
    ghost var q2 := q.(cp := true, cr := false);
    Rotate(h, o, sib, ns, c1, q2);
    ToSibling(h.Mem(), ns, c1, q2.Rotated(o));
  }

  /** Black sibling with a red far child: the sibling takes the place and colour of the parent. */
  method FixFarNephew(h: Memory, s: Side, parent: int, sib: int, ghost ns: set<int>, ghost q: Pair, ghost up: Ctx)
    requires h.Valid() && q.p.addr == parent && q.r.addr == sib && q.d.Node?
    requires Rep(h.Mem(), ns, Frame(s, q.p, q.cp, Mk(s, q.r, q.cr, q.b, q.d), up), q.a)
    modifies h.cells
    ensures Rep(h.Mem(), ns, up, q.(cp := false, cr := q.cp, d := Paint(q.d, false)).Rotated(s))
    ensures Readable(h.Mem(), parent) && h.Mem()[parent + 20] == 0
    ensures OnlyLinks(old(h.Mem()), h.Mem(), ns)
  {
    hide Rep, Aligned, OnlyLinks;
    ghost var c := Frame(s, q.p, q.cp, Mk(s, q.r, q.cr, q.b, q.d), up);
    ghost var m0 := h.Mem();
    ParentWords(m0, ns, c, q.a);
    var red := h.Get(parent + 20) != 0;
    SetSibling(h, sib, red, ns, c, q.a);
    ghost var m1, c1 := h.Mem(), c.(sib := Mk(s, q.r, q.cp, q.b, q.d));
    SetParent(h, parent, false, ns, c1, q.a);
    OnlyLinksTrans(m0, m1, h.Mem(), ns);
    ghost var m2, q1 := h.Mem(), q.(cp := false, cr := q.cp);
    SetFarNephew(h, s, sib, ns, q1, up);
    OnlyLinksTrans(m0, m2, h.Mem(), ns);
    ghost var m3, q2 := h.Mem(), q1.(d := Paint(q.d, false));
    Up(m3, ns, Frame(s, q2.p, q2.cp, Mk(s, q2.r, q2.cr, q2.b, q2.d), up), q2.a);
    Rotate(h, s, parent, ns, up, q2);
    OnlyLinksTrans(m0, m3, h.Mem(), ns);
    BlackParent(h.Mem(), ns, s, up, q2);
  }

  method SetFarNephew(h: Memory, s: Side, sib: int, ghost ns: set<int>, ghost q: Pair, ghost up: Ctx)
    requires h.Valid() && q.r.addr == sib && q.d.Node?
    requires Rep(h.Mem(), ns, Frame(s, q.p, q.cp, Mk(s, q.r, q.cr, q.b, q.d), up), q.a)
    modifies h.cells
    ensures Rep(h.Mem(), ns, Frame(s, q.p, q.cp, Mk(s, q.r, q.cr, q.b, Paint(q.d, false)), up), q.a)
    ensures OnlyLinks(old(h.Mem()), h.Mem(), ns)
  {
    hide Rep, Aligned;
    var o := Other(s);
    ghost var sb := Mk(s, q.r, q.cr, q.b, q.d);
    ghost var c := Frame(s, q.p, q.cp, sb, up);
    ghost var c1 := AtSibling(c, q.a);
    ToSibling(h.Mem(), ns, c, q.a);
    OpenNode(h.Mem(), ns, c1, sb);
    SetChild(h, h.Get(sib + Off(o)), false, ns, c1, sb, o);
    ToSibling(h.Mem(), ns, c1, Mk(s, q.r, q.cr, q.b, Paint(q.d, false)));
  }

  /** The pair made of parent and sibling of the focus. */
  function SiblingPair(c: Ctx, t: Tree): (q: Pair)
    requires c.Frame? && c.sib.Node?
    ensures q.Tree(c.side) == Mk(c.side, c.item, c.red, t, c.sib)
  {
    Pair(c.item, c.red, t, c.sib.item, c.sib.red, Kid(c.sib, c.side), Kid(c.sib, Other(c.side)))
  }

  /** Every way through the focus has one black node too few; a red focus pays when painted black. */
  predicate Deficit(c: Ctx, t: Tree) {
    Even(Paint(t, false)) && CtxEven(c, Black(t) + 1)
  }

  /** The sibling is black and its children are as high as the focus. */
  predicate Lending(c: Ctx, t: Tree) {
    && Even(t) && !Red(t)
    && c.Frame? && c.sib.Node? && !c.sib.red
    && Even(c.sib.left) && Even(c.sib.right) && Black(c.sib.left) == Black(c.sib.right) == Black(t)
    && (c.red ==> AllowsRed(c.up))
    && CtxEven(c.up, Black(t) + 1 + (if c.red then 0 else 1))
  }

  lemma DeficitLends(c: Ctx, t: Tree)
    requires Deficit(c, t) && !Red(t) && c.Frame? && !Red(c.sib)
    ensures Lending(c, t)
  {
    assert Paint(t, false) == t;
  }

  /** The pair rotated in `FixNearNephew`: the sibling and its near child. */
  function NearPair(c: Ctx): (q: Pair)
    requires c.Frame? && c.sib.Node? && Kid(c.sib, c.side).Node?
    ensures q.Tree(Other(c.side)) == c.sib
  {
    var near, o := Kid(c.sib, c.side), Other(c.side);
    Pair(c.sib.item, c.sib.red, Kid(c.sib, o), near.item, near.red, Kid(near, o), Kid(near, c.side))
  }

  function NearLent(c: Ctx): Ctx
    requires c.Frame? && c.sib.Node? && Kid(c.sib, c.side).Node?
  {
    c.(sib := NearPair(c).(cp := true, cr := false).Rotated(Other(c.side)))
  }

  lemma NearLends(c: Ctx, t: Tree)
    requires Lending(c, t) && Red(Kid(c.sib, c.side)) && !Red(Kid(c.sib, Other(c.side)))
    ensures Lending(NearLent(c), t) && Red(Kid(NearLent(c).sib, Other(c.side)))
    ensures InOrder(NearLent(c).sib) == InOrder(c.sib)
  {
    var q := NearPair(c);
    RotatedInOrder(Other(c.side), q, q.(cp := true, cr := false));
    var near := Kid(c.sib, c.side);
    assert Even(near) && Even(near.left) && Even(near.right);
  }

  function FarLent(c: Ctx, t: Tree): Tree
    requires c.Frame? && c.sib.Node?
  {
    var q := SiblingPair(c, t);
    q.(cp := false, cr := q.cp, d := Paint(q.d, false)).Rotated(c.side)
  }

  lemma FarLends(c: Ctx, t: Tree)
    requires Lending(c, t) && Red(Kid(c.sib, Other(c.side)))
    ensures RB(Plug(c.up, FarLent(c, t)))
    ensures InOrder(FarLent(c, t)) == InOrder(Mk(c.side, c.item, c.red, t, c.sib))
  {
    FarOrder(c, t);
    PlugRB(c.up, FarLent(c, t));
    hide InOrder, Plug;
  }

  lemma FarOrder(c: Ctx, t: Tree)
    requires c.Frame? && c.sib.Node?
    ensures InOrder(FarLent(c, t)) == InOrder(Mk(c.side, c.item, c.red, t, c.sib))
  {
    var q := SiblingPair(c, t);
    RotatedInOrder(c.side, q, q.(cp := false, cr := q.cp, d := Paint(q.d, false)));
  }

  lemma NephewColour(m: seq<int>, ns: set<int>, c: Ctx, t: Tree, s: Side)
    requires Rep(m, ns, c, t) && c.Frame? && c.sib.Node?
    ensures Readable(m, c.sib.item.addr)
    ensures var n := m[c.sib.item.addr + Off(s)];
      Readable(m, n) && m[n + 20] == RedWord(Red(Kid(c.sib, s)))
  {
    hide Aligned;
    ColourOf(m, Kid(c.sib, s), c.sib.item.addr);
  }

  /** What the source reads to learn that both nephews are black. */
  lemma NephewColours(m: seq<int>, ns: set<int>, c: Ctx, t: Tree)
    requires Rep(m, ns, c, t) && c.Frame? && c.sib.Node?
    ensures Readable(m, c.item.addr) && m[c.item.addr + Off(Other(c.side))] == c.sib.item.addr
    ensures Readable(m, c.sib.item.addr)
    ensures var l, r := m[c.sib.item.addr + 8], m[c.sib.item.addr + 12];
      && Readable(m, l) && (m[l + 20] == 0 <==> !Red(c.sib.left))
      && Readable(m, r) && (m[r + 20] == 0 <==> !Red(c.sib.right))
  {
    hide Aligned;
    ParentWords(m, ns, c, t);
    NephewColour(m, ns, c, t, Lft);
    NephewColour(m, ns, c, t, Rgt);
  }

  /** Make the far nephew red by rotating the near one into its place if need be. */
  method FixNear(h: Memory, s: Side, parent: int, sib: int, ghost ns: set<int>, ghost c: Ctx, ghost t: Tree)
    returns (sib': int, ghost c': Ctx)
    requires h.Valid() && Rep(h.Mem(), ns, c, t) && Lending(c, t)
    requires c.side == s && c.item.addr == parent && c.sib.item.addr == sib
    requires Red(c.sib.left) || Red(c.sib.right)
    modifies h.cells
    ensures Rep(h.Mem(), ns, c', t) && Lending(c', t) && Red(Kid(c'.sib, Other(s)))
    ensures c' == c.(sib := c'.sib) && InOrder(c'.sib) == InOrder(c.sib) && c'.sib.item.addr == sib'
    ensures OnlyLinks(old(h.Mem()), h.Mem(), ns)
  {
    hide Rep, Aligned;
    sib', c' := sib, c;
    NephewColour(h.Mem(), ns, c, t, Other(s));
    if h.Get(h.Get(sib + Off(Other(s))) + 20) == 0 {
      NearLends(c, t);
      FixNearNephew(h, s, sib, ns, c, t, NearPair(c));
      c' := NearLent(c);
      ParentWords(h.Mem(), ns, c', t);
      sib' := h.Get(parent + Off(Other(s)));
    }
  }

  /** One of the nephews is red: borrow a black node from the sibling's side. */
  method FixBorrow(h: Memory, s: Side, parent: int, sib: int, ghost ns: set<int>, ghost c: Ctx, ghost t: Tree)
    returns (ghost w: Tree)
    requires h.Valid() && Rep(h.Mem(), ns, c, t) && Lending(c, t)
    requires c.side == s && c.item.addr == parent && c.sib.item.addr == sib
    requires Red(c.sib.left) || Red(c.sib.right)
    modifies h.cells
    ensures Rep(h.Mem(), ns, c.up, w) && RB(Plug(c.up, w)) && InOrder(w) == InOrder(Mk(s, c.item, c.red, t, c.sib))
    ensures Readable(h.Mem(), parent) && h.Mem()[parent + 20] == 0
    ensures OnlyLinks(old(h.Mem()), h.Mem(), ns)
  {
    hide Aligned;
    var sib', c' := FixNear(h, s, parent, sib, ns, c, t);
    FarLends(c', t);
    w := FarLent(c', t);
    FixFarNephew(h, s, parent, sib', ns, SiblingPair(c', t), c.up);
  }

  lemma BlackParent(m: seq<int>, ns: set<int>, s: Side, up: Ctx, q: Pair)
    requires Rep(m, ns, up, q.Rotated(s))
    ensures NodeAt(m, q.p, q.cp, if s == Lft then Ptr(q.a) else Ptr(q.b), if s == Lft then Ptr(q.b) else Ptr(q.a), q.r.addr)
  {
    assert TreeAt(m, Mk(s, q.p, q.cp, q.a, q.b), q.r.addr);
  }

  // ---------- the loop ----------

  /** Where `rb_fix` stands: still short at a focus, or repaired. */
  datatype Progress = Short(c: Ctx, t: Tree) | Fixed(w: Tree)

  /** `node` is the loop variable; `root` is the root pointer as it was when `rb_fix` started.
      Rotations may move the root, yet whenever `node == root` decides anything, either the root has not
      moved or `root` is already black, so that painting it black is harmless. */
  ghost predicate FixInv(m: seq<int>, ns: set<int>, root: int, node: int, p: Progress, xs: seq<Item>) {
    match p
    case Short(c, t) =>
      && Rep(m, ns, c, t) && Deficit(c, t) && Ptr(t) == node && InOrder(Plug(c, t)) == xs
      && (t.Leaf? ==> m[NIL + 16] == CtxPtr(c))
      && (Red(t) || m[NIL + 8] == root)
    case Fixed(w) =>
      && Rep(m, ns, Top, w) && RB(w) && InOrder(w) == xs
      && node == root && Readable(m, root) && m[root + 20] == 0
  }

  /** Bounds the remaining iterations. */
  function Remaining(p: Progress): nat {
    if p.Short? && !Red(p.t) then 1 + Depth(p.c) else 0
  }

  function RedLent(c: Ctx, t: Tree): Ctx
    requires c.Frame? && c.sib.Node?
  {
    var q := SiblingPair(c, t);
    Frame(c.side, q.p, true, q.b, Frame(c.side, q.r, false, q.d, c.up))
  }

  lemma RedSiblingRB(c: Ctx, t: Tree)
    requires Deficit(c, t) && !Red(t) && c.Frame? && Red(c.sib)
    ensures Deficit(RedLent(c, t), t)
    ensures RedLent(c, t).sib.Node? && !RedLent(c, t).sib.red
    ensures InOrder(Plug(RedLent(c, t), t)) == InOrder(Plug(c, t))
  {
    var q := SiblingPair(c, t);
    RotatedInOrder(c.side, q, q.(cp := true, cr := false));
    SamePlug(c.up, q.Tree(c.side), q.(cp := true, cr := false).Rotated(c.side));
    assert Even(c.sib) && Even(q.b) && Even(q.d);
    assert Paint(t, false) == t;
  }

  function Recoloured(c: Ctx, t: Tree): Tree
    requires c.Frame?
  {
    Mk(c.side, c.item, c.red, t, Paint(c.sib, true))
  }

  lemma RecolouredRB(c: Ctx, t: Tree)
    requires Lending(c, t) && !Red(c.sib.left) && !Red(c.sib.right)
    ensures Deficit(c.up, Recoloured(c, t))
    ensures InOrder(Plug(c.up, Recoloured(c, t))) == InOrder(Plug(c, t))
  {
    SamePlug(c.up, Mk(c.side, c.item, c.red, t, c.sib), Recoloured(c, t));
  }

  /** Where the saved root is, relative to the focus. */
  ghost predicate RootKnown(c: Ctx, root: int)
    requires c.Frame?
  {
    root == c.item.addr || (c.up.Frame? && root == TopAddr(c.up))
  }

  lemma SameRoot(m: seq<int>, m': seq<int>, c: Ctx, f: int, h: nat)
    requires CtxAt(m, c, f) && CtxAt(m', c, f) && CtxEven(c, h)
    ensures m[NIL + 8] == m'[NIL + 8]
  {
    if c.Frame? {
      RootOfCtx(m, c, f, h);
      RootOfCtx(m', c, f, h);
    }
  }

  /** Both nephews black: the sibling turns red and the focus moves up. */
  method FixRecolour(h: Memory, parent: int, sib: int, ghost root: int, ghost ns: set<int>, ghost c: Ctx, ghost t: Tree)
    requires h.Valid() && Rep(h.Mem(), ns, c, t) && Lending(c, t)
    requires !Red(c.sib.left) && !Red(c.sib.right)
    requires c.item.addr == parent && c.sib.item.addr == sib
    requires c.red || h.Mem()[NIL + 8] == root
    modifies h.cells
    ensures FixInv(h.Mem(), ns, root, parent, Short(c.up, Recoloured(c, t)), InOrder(Plug(c, t)))
    ensures OnlyLinks(old(h.Mem()), h.Mem(), ns)
  {
    hide Aligned, Rep, Deficit, InOrder, Plug, OnlyLinks;
    ghost var m := h.Mem();
    SetSibling(h, sib, true, ns, c, t);
    RecolouredRB(c, t);
    Up(h.Mem(), ns, c.(sib := Paint(c.sib, true)), t);
    if !c.red {
      RecolouredRoot(m, h.Mem(), ns, c, t, Black(t) + 2);
    }
  }

  lemma RecolouredRoot(m: seq<int>, m': seq<int>, ns: set<int>, c: Ctx, t: Tree, h: nat)
    requires Rep(m, ns, c, t) && c.Frame? && Rep(m', ns, c.(sib := Paint(c.sib, true)), t) && CtxEven(c.up, h)
    ensures NODE_BYTES <= |m| && NODE_BYTES <= |m'| && m[NIL + 8] == m'[NIL + 8]
  {
    CtxOfRep(m, ns, c, t);
    CtxOfRep(m', ns, c.(sib := Paint(c.sib, true)), t);
    HasNil(m, ns, c, t);
    HasNil(m', ns, c.(sib := Paint(c.sib, true)), t);
    hide Rep, NodeAt, TreeAt;
    SameRoot(m, m', c.up, c.item.addr, h);
  }

  lemma CtxOfRep(m: seq<int>, ns: set<int>, c: Ctx, t: Tree)
    requires Rep(m, ns, c, t)
    ensures CtxAt(m, c, Ptr(t))
  {
  }

  lemma Repaired(m: seq<int>, ns: set<int>, c: Ctx, t: Tree, w: Tree, root: int)
    requires Lending(c, t) && RootKnown(c, root)
    requires Rep(m, ns, c.up, w) && RB(Plug(c.up, w)) && InOrder(w) == InOrder(Mk(c.side, c.item, c.red, t, c.sib))
    requires Readable(m, c.item.addr) && m[c.item.addr + 20] == 0
    ensures FixInv(m, ns, root, root, Fixed(Plug(c.up, w)), InOrder(Plug(c, t)))
  {
    hide Rep, RB, TreeAt, Aligned;
    SamePlug(c.up, w, Mk(c.side, c.item, c.red, t, c.sib));
    UpAll(m, ns, c.up, w);
    if root != c.item.addr {
      CtxOfRep(m, ns, c.up, w);
      RootOfCtx(m, c.up, Ptr(w), Black(t) + 1 + (if c.red then 0 else 1));
    }
  }

  /** The second half of an iteration, once the sibling is black. */
  method FixBlackSibling(h: Memory, s: Side, parent: int, root: int, ghost ns: set<int>, ghost c: Ctx, ghost t: Tree)
    returns (next: int, ghost p: Progress)
    requires h.Valid() && Rep(h.Mem(), ns, c, t) && c.Frame? && c.sib.Node? && Lending(c, t)
    requires c.side == s && c.item.addr == parent && RootKnown(c, root)
    requires c.red || h.Mem()[NIL + 8] == root
    modifies h.cells
    ensures FixInv(h.Mem(), ns, root, next, p, InOrder(Plug(c, t)))
    ensures p.Fixed? || p == Short(c.up, Recoloured(c, t))
    ensures OnlyLinks(old(h.Mem()), h.Mem(), ns)
  {
    hide Rep, Lending, FixInv, RootKnown, Recoloured, OnlyLinks, Plug, InOrder, Aligned;
    NephewColours(h.Mem(), ns, c, t);
    var sib := h.Get(parent + Off(Other(s)));
    if h.Get(h.Get(sib + 12) + 20) == 0 && h.Get(h.Get(sib + 8) + 20) == 0 {
      FixRecolour(h, parent, sib, root, ns, c, t);
      next, p := parent, Short(c.up, Recoloured(c, t));
    } else {
      ghost var w := FixBorrow(h, s, parent, sib, ns, c, t);
      Repaired(h.Mem(), ns, c, t, w, root);
      next, p := root, Fixed(Plug(c.up, w));
    }
  }

  /** One iteration of `rb_fix`; `s` is the side on which the focus hangs. */
  method FixIteration(h: Memory, s: Side, node: int, root: int, ghost ns: set<int>, ghost p: Progress, ghost xs: seq<Item>)
    returns (next: int, ghost p': Progress)
    requires h.Valid() && FixInv(h.Mem(), ns, root, node, p, xs)
    requires p.Short? && !Red(p.t) && p.c.Frame? && p.c.side == s
    modifies h.cells
    ensures FixInv(h.Mem(), ns, root, next, p', xs)
    ensures Remaining(p') < Remaining(p)
    ensures OnlyLinks(old(h.Mem()), h.Mem(), ns)
  {
    hide FixInv, Rep, Deficit, Lending, InOrder, Plug, OnlyLinks, Aligned;
    ghost var c, t, m := p.c, p.t, h.Mem();
    IterationReads(m, ns, root, node, p, xs);
    var parent := h.Get(node + 16);
    var sib := h.Get(parent + Off(Other(s)));
    ghost var c1 := c;
    if h.Get(sib + 20) != 0 {
      FixRedSibling(h, s, parent, sib, ns, SiblingPair(c, t), c.up);
      RedSiblingRB(c, t);
      RedLentRoot(c, t, root);
      c1 := RedLent(c, t);
    } else {
      OnlyLinksSame(m, ns);
    }
    ghost var m1 := h.Mem();
    DeficitLends(c1, t);
    next, p' := FixBlackSibling(h, s, parent, root, ns, c1, t);
    OnlyLinksTrans(m, m1, h.Mem(), ns);
  }

  lemma RedLentRoot(c: Ctx, t: Tree, root: int)
    requires c.Frame? && c.sib.Node? && RootKnown(c, root)
    ensures RootKnown(RedLent(c, t), root)
  {
  }

  /** What an iteration reads before it changes anything. */
  lemma IterationReads(m: seq<int>, ns: set<int>, root: int, node: int, p: Progress, xs: seq<Item>)
    requires FixInv(m, ns, root, node, p, xs) && p.Short? && !Red(p.t) && p.c.Frame?
    ensures Rep(m, ns, p.c, p.t) && Deficit(p.c, p.t) && Ptr(p.t) == node && InOrder(Plug(p.c, p.t)) == xs
    ensures RootKnown(p.c, root) && m[NIL + 8] == root && p.c.sib.Node?
    ensures Readable(m, node) && m[node + 16] == p.c.item.addr
    ensures Readable(m, p.c.item.addr) && m[p.c.item.addr + Off(Other(p.c.side))] == p.c.sib.item.addr
    ensures Readable(m, p.c.sib.item.addr) && m[p.c.sib.item.addr + 20] == RedWord(p.c.sib.red)
  {
    hide Aligned;
    ColourOf(m, p.t, p.c.item.addr);
    ParentWords(m, ns, p.c, p.t);
    RootOfCtx(m, p.c, node, Black(p.t) + 1);
    ColourOf(m, p.c.sib, p.c.item.addr);
    assert Black(p.c.sib) > 0;
  }

  /** `rb_fix`. */
  method Fix(h: Memory, start: int, ghost ns: set<int>, ghost c: Ctx, ghost t: Tree) returns (ghost w: Tree)
    requires h.Valid() && Rep(h.Mem(), ns, c, t) && Deficit(c, t) && Ptr(t) == start
    requires t.Leaf? ==> h.Mem()[NIL + 16] == CtxPtr(c)
    modifies h.cells
    ensures Rep(h.Mem(), ns, Top, w) && RB(w) && InOrder(w) == InOrder(Plug(c, t))
    ensures OnlyLinks(old(h.Mem()), h.Mem(), ns)
  {
    hide FixInv, Rep, RB, Deficit, OnlyLinks, InOrder, Plug, Remaining;
    ghost var m0, xs := h.Mem(), InOrder(Plug(c, t));
    HasNil(m0, ns, c, t);
    var node, root := start, h.Get(NIL + 8);
    FixStart(m0, ns, root, start, c, t);
    ghost var p := Short(c, t);
    FixGuard(h.Mem(), ns, root, node, p, xs);
    while h.Get(node + 20) == 0 && node != root
      invariant FixInv(h.Mem(), ns, root, node, p, xs)
      invariant Readable(h.Mem(), node)
      invariant OnlyLinks(m0, h.Mem(), ns)
      decreases Remaining(p)
    {
      FixGuard(h.Mem(), ns, root, node, p, xs);
      var parent := h.Get(node + 16);
      ghost var m1 := h.Mem();
      if node == h.Get(parent + 8) {
        node, p := FixIteration(h, Lft, node, root, ns, p, xs);
      } else {
        node, p := FixIteration(h, Rgt, node, root, ns, p, xs);
      }
      OnlyLinksTrans(m0, m1, h.Mem(), ns);
      FixGuard(h.Mem(), ns, root, node, p, xs);
    }
    FixGuard(h.Mem(), ns, root, node, p, xs);
    FixEnd(h.Mem(), ns, root, node, p, xs);
    ghost var m1 := h.Mem();
    h.Put(node + 20, 0);
    OnlyLinksTrans(m0, m1, h.Mem(), ns);
    w := if p.Fixed? then p.w else Plug(p.c, Paint(p.t, false));
  }

  lemma HasNil(m: seq<int>, ns: set<int>, c: Ctx, t: Tree)
    requires Rep(m, ns, c, t)
    ensures NODE_BYTES <= |m|
  {
  }

  lemma FixStart(m: seq<int>, ns: set<int>, root: int, start: int, c: Ctx, t: Tree)
    requires Rep(m, ns, c, t) && Deficit(c, t) && Ptr(t) == start && root == m[NIL + 8]
    requires t.Leaf? ==> m[NIL + 16] == CtxPtr(c)
    ensures FixInv(m, ns, root, start, Short(c, t), InOrder(Plug(c, t)))
    ensures NODE_BYTES <= |m| && OnlyLinks(m, m, ns)
  {
  }

  /** What the loop guard decides. */
  lemma FixGuard(m: seq<int>, ns: set<int>, root: int, node: int, p: Progress, xs: seq<Item>)
    requires FixInv(m, ns, root, node, p, xs)
    ensures Readable(m, node)
    ensures m[node + 20] == 0 && node != root ==>
      && p.Short? && !Red(p.t) && p.c.Frame? && m[node + 16] == p.c.item.addr
      && NODE_BYTES <= p.c.item.addr && Readable(m, p.c.item.addr)
      && (p.c.side == Lft <==> m[p.c.item.addr + 8] == node)
    ensures p.Short? && (m[node + 20] != 0 || node == root) ==> Red(p.t) || p.c.Top?
  {
    hide Aligned;
    if p.Short? {
      ColourOf(m, p.t, CtxPtr(p.c));
      RootIsTop(m, ns, p.c, p.t, Black(p.t) + 1);
      if p.c.Frame? {
        SideOfHole(m, ns, p.c, p.t);
      }
    }
  }

  lemma SideOfHole(m: seq<int>, ns: set<int>, c: Ctx, t: Tree)
    requires Rep(m, ns, c, t) && Deficit(c, t) && c.Frame?
    ensures NODE_BYTES <= c.item.addr && Readable(m, c.item.addr)
    ensures c.side == Lft <==> m[c.item.addr + 8] == Ptr(t)
  {
    hide Aligned;
    assert Black(c.sib) > 0;
    assert t.Node? ==> t.item.addr in Addrs(t);
    assert c.sib.item.addr in Addrs(c.sib) && c.sib.item.addr in CtxAddrs(c) && c.sib.item.addr in ns;
  }

  lemma FixEndShort(m: seq<int>, ns: set<int>, node: int, c: Ctx, t: Tree)
    requires Rep(m, ns, c, t) && Ptr(t) == node && Readable(m, node)
    ensures var m' := m[node + 20 := 0]; Rep(m', ns, c, Paint(t, false)) && OnlyLinks(m, m', ns)
  {
    hide Aligned;
    if t.Node? {
      PaintFocus(m, ns, c, t, false);
    } else {
      assert m[node + 20 := 0] == m;
    }
  }

  /** The final write to the colour of `node`. */
  lemma FixEnd(m: seq<int>, ns: set<int>, root: int, node: int, p: Progress, xs: seq<Item>)
    requires FixInv(m, ns, root, node, p, xs) && Readable(m, node)
    requires p.Short? ==> Red(p.t) || p.c.Top?
    ensures var m', w := m[node + 20 := 0], if p.Fixed? then p.w else Plug(p.c, Paint(p.t, false));
      Rep(m', ns, Top, w) && RB(w) && InOrder(w) == xs && OnlyLinks(m, m', ns)
  {
    var m' := m[node + 20 := 0];
    match p
    case Fixed(w) => assert m' == m;
    case Short(c, t) =>
      hide Rep, OnlyLinks, NilAt;
      SamePlug(c, t, Paint(t, false));
      PlugRB(c, Paint(t, false));
      FixEndShort(m, ns, node, c, t);
      UpAll(m', ns, c, Paint(t, false));
  }
}
