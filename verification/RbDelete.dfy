/** `rb_delete`. */
module RbDelete {
  import opened Memlib
  import opened RbModel
  import opened RbMem
  import opened RbPaint
  import opened RbRotate
  import opened RbFix
  import opened RbSearch
  import opened RbInsert

  // ---------- taking out a node with at most one child ----------

  /** The only child of a node, or a leaf. */
  function OnlyChild(t: Tree): Tree
    requires t.Node?
  {
    if t.left.Leaf? then t.right else t.left
  }

  predicate AtMostOneChild(t: Tree) {
    t.Node? && (t.left.Leaf? || t.right.Leaf?)
  }

  /** The two words written when `t` gives its place to its only child. */
  function Spliced(m: seq<int>, c: Ctx, t: Tree): seq<int>
    requires AtMostOneChild(t) && 0 <= Ptr(OnlyChild(t)) && Ptr(OnlyChild(t)) + 16 < |m| && 0 <= HoleCell(c) < |m|
  {
    m[Ptr(OnlyChild(t)) + 16 := CtxPtr(c)][HoleCell(c) := Ptr(OnlyChild(t))]
  }

  lemma SpliceBounds(m: seq<int>, ns: set<int>, c: Ctx, t: Tree)
    requires Rep(m, ns, c, t) && AtMostOneChild(t)
    ensures Readable(m, Ptr(OnlyChild(t))) && 0 <= HoleCell(c) < |m|
  {
    hide Aligned;
    HoleCellBound(m, c, Ptr(t));
    NilReadable(m);
    assert TreeAt(m, OnlyChild(t), t.item.addr);
  }

  lemma SpliceChild(m: seq<int>, ns: set<int>, c: Ctx, t: Tree)
    requires Rep(m, ns, c, t) && AtMostOneChild(t)
    requires Readable(m, Ptr(OnlyChild(t))) && 0 <= HoleCell(c) < |m|
    ensures TreeAt(Spliced(m, c, t), OnlyChild(t), CtxPtr(c))
  {
    var k, m' := OnlyChild(t), Spliced(m, c, t);
    OnlyChildHere(m, ns, c, t);
    hide Rep, Aligned, Readable;
    if k.Node? {
      assert k.item.addr in Addrs(k);
      forall a, x | a in Addrs(k) && a + 4 <= x < a + NODE_BYTES && 0 <= x < |m| && x != Ptr(k) + 16 ensures m[x] == m'[x] {
        HoleElsewhere(ns, c, a, x);
      }
      HoleElsewhere(ns, c, k.item.addr, k.item.addr + 16);
      Reparented(m, m', k, t.item.addr, CtxPtr(c));
    }
  }

  lemma OnlyChildHere(m: seq<int>, ns: set<int>, c: Ctx, t: Tree)
    requires Rep(m, ns, c, t) && AtMostOneChild(t)
    ensures var k := OnlyChild(t);
      && TreeAt(m, k, t.item.addr) && Uniq(k) && Addrs(k) <= ns && Apart(ns)
      && (c.Frame? ==> c.item.addr in ns && c.item.addr !in Addrs(k))
      && forall a, b :: a in Addrs(k) && b in Addrs(k) && a < b ==> a + NODE_BYTES <= b
  {
    hide NodeAt, CtxAt, NilAt;
    assert c.Frame? ==> c.item.addr in CtxAddrs(c);
  }

  /** The pointer into the hole belongs to nil or to the innermost frame. */
  lemma HoleElsewhere(ns: set<int>, c: Ctx, a: int, x: int)
    requires Apart(ns) && a in ns && a + 4 <= x < a + NODE_BYTES && (c.Frame? ==> c.item.addr in ns && a != c.item.addr)
    ensures x != HoleCell(c)
  {
    if c.Frame? {
      NodeOf(ns, a, x, c.item.addr);
    }
  }

  lemma SpliceContext(m: seq<int>, ns: set<int>, c: Ctx, t: Tree)
    requires Rep(m, ns, c, t) && AtMostOneChild(t)
    requires Readable(m, Ptr(OnlyChild(t))) && 0 <= HoleCell(c) < |m|
    ensures CtxAt(Spliced(m, c, t), c, Ptr(OnlyChild(t))) && NilAt(Spliced(m, c, t))
  {
    hide Aligned;
    var k, m' := OnlyChild(t), Spliced(m, c, t);
    assert c.Frame? ==> c.item.addr in CtxAddrs(c);
    assert k.Node? ==> k.item.addr in Addrs(k) && k.item.addr in Addrs(t);
    forall a, x | a in CtxAddrs(c) && a + 4 <= x < a + NODE_BYTES && x < |m| && x != HoleCell(c) ensures m[x] == m'[x] {
      assert a in ns;
    }
    CtxFrame(m, m', ns, c, Ptr(t), Ptr(k));
  }

  lemma SpliceRep(m: seq<int>, ns: set<int>, c: Ctx, t: Tree)
    requires Rep(m, ns, c, t) && AtMostOneChild(t)
    requires Readable(m, Ptr(OnlyChild(t))) && 0 <= HoleCell(c) < |m|
    ensures var m' := Spliced(m, c, t);
      && Rep(m', ns - {t.item.addr}, c, OnlyChild(t))
      && m'[Ptr(OnlyChild(t)) + 16] == CtxPtr(c)
      && OnlyLinks(m, m', ns - {t.item.addr})
  {
    hide Aligned;
    var k, m' := OnlyChild(t), Spliced(m, c, t);
    SpliceChild(m, ns, c, t);
    SpliceContext(m, ns, c, t);
    assert Addrs(k) == Addrs(t) - {t.item.addr};
    assert k.Node? ==> k.item.addr in Addrs(k) && k.item.addr in ns - {t.item.addr};
    assert c.Frame? ==> c.item.addr in CtxAddrs(c) && c.item.addr in ns - {t.item.addr};
    assert Partition(ns - {t.item.addr}, c, k);
    assert HoleCell(c) != Ptr(k) + 16;
  }

  lemma SpliceRB(c: Ctx, t: Tree)
    requires RB(Plug(c, t)) && AtMostOneChild(t)
    ensures if t.red then RB(Plug(c, OnlyChild(t))) else Deficit(c, OnlyChild(t))
    ensures InOrder(Plug(c, OnlyChild(t))) == Before(c) + InOrder(OnlyChild(t)) + After(c)
    ensures InOrder(Plug(c, t)) == Before(c) + InOrder(t) + After(c)
  {
    PlugRB(c, t);
    PlugRB(c, OnlyChild(t));
    PlugInOrder(c, t);
    PlugInOrder(c, OnlyChild(t));
  }

  /** Unlink node `n`, which has at most one child; its child (perhaps nil) learns its new parent. */
  method Unlink(h: Memory, n: int, ghost ns: set<int>, ghost c: Ctx, ghost t: Tree) returns (child: int)
    requires h.Valid() && Rep(h.Mem(), ns, c, t) && AtMostOneChild(t) && t.item.addr == n
    modifies h.cells
    ensures child == Ptr(OnlyChild(t))
    ensures Rep(h.Mem(), ns - {n}, c, OnlyChild(t))
    ensures Readable(h.Mem(), child) && h.Mem()[child + 16] == CtxPtr(c)
    ensures OnlyLinks(old(h.Mem()), h.Mem(), ns - {n})
  {
    hide Rep, OnlyLinks, Aligned;
    ghost var m := h.Mem();
    ReadNode(m, ns, c, t);
    SpliceBounds(m, ns, c, t);
    SpliceRep(m, ns, c, t);
    SpliceCells(m, ns, c, t);
    child := if h.Get(n + 8) == NIL then h.Get(n + 12) else h.Get(n + 8);
    h.Put(child + 16, h.Get(n + 16));
    if h.Get(child + 16) == NIL {
      h.Put(NIL + 8, child);
    } else {
      ReplaceChild(h, h.Get(n + 16), n, child);
    }
  }

  lemma SpliceCells(m: seq<int>, ns: set<int>, c: Ctx, t: Tree)
    requires Rep(m, ns, c, t) && AtMostOneChild(t)
    ensures t.item.addr in ns && PointerTo(m, CtxPtr(c), t.item.addr) == HoleCell(c)
    ensures c.Top? <==> CtxPtr(c) == NIL
    ensures OnlyChild(t).Node? ==> ApartPair(Ptr(OnlyChild(t)), t.item.addr) && ApartPair(Ptr(OnlyChild(t)), CtxPtr(c))
    ensures NODE_BYTES <= t.item.addr && (c.Frame? ==> NODE_BYTES <= CtxPtr(c))
    ensures c.Frame? ==> CtxPtr(c) != t.item.addr
  {
    var k := OnlyChild(t);
    assert k.Node? ==> k.item.addr in Addrs(k) && k.item.addr in Addrs(t) && k.item.addr != t.item.addr;
    assert c.Frame? ==> c.item.addr in CtxAddrs(c);
    ChildCell(m, c, t.item.addr);
  }

  lemma OnlyLinksSpares(m: seq<int>, m': seq<int>, ns: set<int>, n: int)
    requires OnlyLinks(m, m', ns) && Apart(ns + {n}) && n !in ns
    ensures SameNode(m, m', n)
  {
    assert n in ns + {n};
    forall x | 0 <= x < |m| && n + 4 <= x < n + NODE_BYTES ensures m[x] == m'[x] {
      forall a | a in ns ensures !(a + 8 <= x < a + NODE_BYTES) {
        assert a in ns + {n};
      }
    }
  }

  /** Take out a node with at most one child and restore the black heights. */
  method DeleteThin(h: Memory, n: int, ghost ns: set<int>, ghost c: Ctx, ghost t: Tree) returns (ghost w: Tree)
    requires h.Valid() && Rep(h.Mem(), ns, c, t) && AtMostOneChild(t) && t.item.addr == n
    requires RB(Plug(c, t))
    modifies h.cells
    ensures Rep(h.Mem(), ns - {n}, Top, w) && RB(w)
    ensures InOrder(w) == Before(c) + InOrder(OnlyChild(t)) + After(c)
    ensures OnlyLinks(old(h.Mem()), h.Mem(), ns - {n})
  {
    hide Rep, OnlyLinks, RB, Deficit, InOrder, Plug, Apart, SameNode;
    ghost var m, ns' := h.Mem(), ns - {n};
    ReadNode(m, ns, c, t);
    SpliceRB(c, t);
    NodesApart(m, ns, c, t);
    var child := Unlink(h, n, ns, c, t);
    ghost var m1 := h.Mem();
    OnlyLinksSpares(m, m1, ns', n);
    SameColour(m, m1, n);
    if h.Get(n + 20) == 0 {
      w := Fix(h, child, ns', c, OnlyChild(t));
      OnlyLinksTrans(m, m1, h.Mem(), ns');
    } else {
      w := Plug(c, OnlyChild(t));
      UpAll(h.Mem(), ns', c, OnlyChild(t));
    }
  }

  lemma NodesApart(m: seq<int>, ns: set<int>, c: Ctx, t: Tree)
    requires Rep(m, ns, c, t) && t.Node?
    ensures t.item.addr in ns && Apart((ns - {t.item.addr}) + {t.item.addr})
  {
    assert (ns - {t.item.addr}) + {t.item.addr} == ns;
  }

  lemma SameColour(m: seq<int>, m': seq<int>, a: int)
    requires SameNode(m, m', a) && Readable(m, a)
    ensures a + NODE_BYTES <= |m'| && m'[a + 20] == m[a + 20]
  {
  }

  // ---------- putting the successor in the place of the node ----------

  /** A subtree whose root learns a new parent. */
  lemma Reparented(m: seq<int>, m': seq<int>, t: Tree, p: int, p': int)
    requires TreeAt(m, t, p) && Uniq(t) && |m| == |m'|
    requires forall a, x :: a in Addrs(t) && a + 4 <= x < a + NODE_BYTES && 0 <= x < |m| && x != Ptr(t) + 16 ==> m[x] == m'[x]
    requires forall a, b :: a in Addrs(t) && b in Addrs(t) && a < b ==> a + NODE_BYTES <= b
    requires t.Node? && t.item.addr + 16 < |m| ==> m'[t.item.addr + 16] == p'
    ensures TreeAt(m', t, p')
  {
    hide Aligned;
    if t.Node? {
      assert t.item.addr in Addrs(t);
      forall a | a in Addrs(t.left) + Addrs(t.right) ensures SameNode(m, m', a) {
        assert a in Addrs(t) && a != t.item.addr;
      }
      TreeFrame(m, m', t.left, t.item.addr);
      TreeFrame(m, m', t.right, t.item.addr);
    }
  }

  /** The words written when block `i` takes the place of `t`'s node. */
  predicate SwapWord(c: Ctx, t: Tree, i: Item, x: int)
    requires t.Node?
  {
    i.addr + 8 <= x < i.addr + NODE_BYTES || x == HoleCell(c) || x == Ptr(t.left) + 16 || x == Ptr(t.right) + 16
  }

  function Swapped(t: Tree, i: Item): Tree
    requires t.Node?
  {
    Node(i, t.red, t.left, t.right)
  }

  /** Only those words differ. */
  ghost predicate SwapFrame(m: seq<int>, m': seq<int>, c: Ctx, t: Tree, i: Item)
    requires t.Node?
  {
    |m| == |m'| && forall x :: 0 <= x < |m| && !SwapWord(c, t, i, x) ==> m[x] == m'[x]
  }

  ghost predicate SwapDone(m: seq<int>, m': seq<int>, c: Ctx, t: Tree, i: Item)
    requires t.Node?
  {
    && SwapFrame(m, m', c, t, i) && NodeAt(m', i, t.red, Ptr(t.left), Ptr(t.right), CtxPtr(c))
    && (0 <= HoleCell(c) < |m| ==> m'[HoleCell(c)] == i.addr)
    && (t.left.Node? && 0 <= Ptr(t.left) + 16 < |m| ==> m'[Ptr(t.left) + 16] == i.addr)
    && (t.right.Node? && 0 <= Ptr(t.right) + 16 < |m| ==> m'[Ptr(t.right) + 16] == i.addr)
  }

  /** The nodes around a node that is replaced by block `i`. */
  ghost predicate SwapPath(ns: set<int>, c: Ctx, t: Tree, i: Item)
    requires t.Node?
  {
    && Apart(ns + {i.addr}) && i.addr !in ns && (c.Frame? ==> c.item.addr in ns)
    && (t.left.Node? ==> t.left.item.addr in ns) && (t.right.Node? ==> t.right.item.addr in ns)
  }

  lemma SwapPathHere(m: seq<int>, ns: set<int>, c: Ctx, t: Tree, i: Item)
    requires Rep(m, ns, c, t) && t.Node? && i.addr !in ns && Apart(ns + {i.addr})
    ensures SwapPath(ns, c, t, i) && Apart(ns) && CtxAt(m, c, t.item.addr) && NilAt(m) && CtxUniq(c) && CtxAddrs(c) <= ns
    ensures forall s :: SwapKidHere(m, ns, c, t, s)
  {
    hide TreeAt, NodeAt, CtxAt, NilAt, Apart;
    assert c.Frame? ==> c.item.addr in CtxAddrs(c);
    assert t.left.Node? ==> t.left.item.addr in Addrs(t.left);
    assert t.right.Node? ==> t.right.item.addr in Addrs(t.right);
    forall s ensures SwapKidHere(m, ns, c, t, s) {
      KidTree(m, t, CtxPtr(c), s);
    }
  }

  lemma KidTree(m: seq<int>, t: Tree, parent: int, s: Side)
    requires TreeAt(m, t, parent) && t.Node?
    ensures TreeAt(m, Kid(t, s), t.item.addr)
  {
  }

  /** A child of that node, and what is not below it. */
  ghost predicate SwapKidHere(m: seq<int>, ns: set<int>, c: Ctx, t: Tree, s: Side)
    requires t.Node?
  {
    var k, o := Kid(t, s), Kid(t, Other(s));
    && TreeAt(m, k, t.item.addr) && Uniq(k) && Addrs(k) <= ns && Addrs(k) !! CtxAddrs(c)
    && (c.Frame? ==> c.item.addr !in Addrs(k)) && (o.Node? ==> o.item.addr !in Addrs(k))
  }

  /** Word `x` of a tree node `a` is not written. */
  lemma NotSwapped(ns: set<int>, c: Ctx, t: Tree, i: Item, a: int, x: int)
    requires t.Node? && SwapPath(ns, c, t, i) && a in ns && a + 4 <= x < a + NODE_BYTES
    requires c.Frame? && a == c.item.addr ==> x != HoleCell(c)
    requires (t.left.Node? && a == t.left.item.addr) || (t.right.Node? && a == t.right.item.addr) ==> x != a + 16
    ensures !SwapWord(c, t, i, x)
  {
    var all := ns + {i.addr};
    NodeOf(all, a, x, i.addr);
    if c.Frame? {
      NodeOf(all, a, x, c.item.addr);
    }
    if t.left.Node? {
      NodeOf(all, a, x, t.left.item.addr);
    }
    if t.right.Node? {
      NodeOf(all, a, x, t.right.item.addr);
    }
    hide Apart;
  }

  lemma SwapKid(m: seq<int>, m': seq<int>, ns: set<int>, c: Ctx, t: Tree, i: Item, s: Side)
    requires t.Node? && SwapPath(ns, c, t, i) && SwapKidHere(m, ns, c, t, s) && Apart(ns) && SwapDone(m, m', c, t, i)
    ensures TreeAt(m', Kid(t, s), i.addr)
  {
    var k := Kid(t, s);
    KidWords(m, m', ns, c, t, i, s);
    hide SwapPath, SwapFrame, NodeAt, Aligned, HoleCell;
    forall a, x | a in Addrs(k) && a + 4 <= x < a + NODE_BYTES && 0 <= x < |m| && x != Ptr(k) + 16 ensures m[x] == m'[x] {
      KidWord(m, m', ns, c, t, i, s, a, x);
    }
    Reparented(m, m', k, t.item.addr, i.addr);
  }

  lemma KidWords(m: seq<int>, m': seq<int>, ns: set<int>, c: Ctx, t: Tree, i: Item, s: Side)
    requires t.Node? && SwapKidHere(m, ns, c, t, s) && Apart(ns) && SwapDone(m, m', c, t, i)
    ensures |m| == |m'|
    ensures forall a, b :: a in Addrs(Kid(t, s)) && b in Addrs(Kid(t, s)) && a < b ==> a + NODE_BYTES <= b
  {
  }

  lemma KidWord(m: seq<int>, m': seq<int>, ns: set<int>, c: Ctx, t: Tree, i: Item, s: Side, a: int, x: int)
    requires t.Node? && SwapPath(ns, c, t, i) && SwapKidHere(m, ns, c, t, s) && SwapFrame(m, m', c, t, i)
    requires a in Addrs(Kid(t, s)) && a + 4 <= x < a + NODE_BYTES && 0 <= x < |m| && x != Ptr(Kid(t, s)) + 16
    ensures m[x] == m'[x]
  {
    hide SwapWord, SwapPath, TreeAt, Uniq;
    NotSwapped(ns, c, t, i, a, x);
  }

  lemma SwapContext(m: seq<int>, m': seq<int>, ns: set<int>, c: Ctx, t: Tree, i: Item)
    requires Rep(m, ns, c, t) && t.Node? && i.addr !in ns && Apart(ns + {i.addr}) && SwapDone(m, m', c, t, i)
    ensures CtxAt(m', c, i.addr) && NilAt(m')
  {
    SwapPathHere(m, ns, c, t, i);
    HoleCellBound(m, c, t.item.addr);
    NilUnswapped(m, m', ns, c, t, i);
    KidsElsewhere(m, ns, c, t);
    hide Rep, CtxAt, NilAt, SwapPath, NodeAt, SwapWord, SwapKidHere, HoleCell, Aligned;
    forall a, x | a in CtxAddrs(c) && a + 4 <= x < a + NODE_BYTES && x < |m| && x != HoleCell(c) ensures m[x] == m'[x] {
      InNode(ns, a);
      NotSwapped(ns, c, t, i, a, x);
    }
    hide SwapFrame;
    CtxFrame(m, m', ns, c, t.item.addr, i.addr);
  }

  lemma InNode(ns: set<int>, a: int)
    requires Apart(ns) && a in ns
    ensures NODE_BYTES <= a
  {
  }

  lemma KidsElsewhere(m: seq<int>, ns: set<int>, c: Ctx, t: Tree)
    requires t.Node? && forall s :: SwapKidHere(m, ns, c, t, s)
    ensures (t.left.Node? ==> t.left.item.addr !in CtxAddrs(c)) && (t.right.Node? ==> t.right.item.addr !in CtxAddrs(c))
  {
    assert SwapKidHere(m, ns, c, t, Lft) && SwapKidHere(m, ns, c, t, Rgt);
    assert t.left.Node? ==> t.left.item.addr in Addrs(t.left);
    assert t.right.Node? ==> t.right.item.addr in Addrs(t.right);
  }

  lemma NilUnswapped(m: seq<int>, m': seq<int>, ns: set<int>, c: Ctx, t: Tree, i: Item)
    requires t.Node? && SwapPath(ns, c, t, i) && SwapFrame(m, m', c, t, i) && NilAt(m)
    ensures |m| == |m'| && NilAt(m') && (c.Frame? ==> m[NIL + 8] == m'[NIL + 8])
  {
    var all := ns + {i.addr};
    assert i.addr in all && (c.Frame? ==> c.item.addr in all);
    assert (t.left.Node? ==> t.left.item.addr in all) && (t.right.Node? ==> t.right.item.addr in all);
  }

  lemma SwapRep(m: seq<int>, m': seq<int>, ns: set<int>, c: Ctx, t: Tree, i: Item)
    requires Rep(m, ns, c, t) && t.Node? && i.addr !in ns && Apart(ns + {i.addr}) && SwapDone(m, m', c, t, i)
    ensures Rep(m', ns - {t.item.addr} + {i.addr}, c, Swapped(t, i))
    ensures OnlyLinks(m, m', ns + {i.addr})
  {
    SwapPathHere(m, ns, c, t, i);
    SwapContext(m, m', ns, c, t, i);
    SwapLinks(m, m', ns, c, t, i);
    SwapSets(m, ns, c, t, i);
    hide CtxAt, NilAt, NodeAt, Apart, OnlyLinks, SwapPath, SwapFrame, Partition, SwapKidHere;
    SwapKid(m, m', ns, c, t, i, Lft);
    SwapKid(m, m', ns, c, t, i, Rgt);
  }

  lemma SwapSets(m: seq<int>, ns: set<int>, c: Ctx, t: Tree, i: Item)
    requires Rep(m, ns, c, t) && t.Node? && i.addr !in ns && Apart(ns + {i.addr})
    ensures var ns' := ns - {t.item.addr} + {i.addr}; Partition(ns', c, Swapped(t, i)) && Apart(ns')
  {
    hide CtxAt, NilAt, TreeAt;
    assert ns - {t.item.addr} + {i.addr} <= ns + {i.addr};
  }

  lemma SwapLinks(m: seq<int>, m': seq<int>, ns: set<int>, c: Ctx, t: Tree, i: Item)
    requires Rep(m, ns, c, t) && t.Node? && SwapDone(m, m', c, t, i)
    ensures OnlyLinks(m, m', ns + {i.addr})
  {
    hide Aligned;
    var all := ns + {i.addr};
    NeighbourSets(ns, c, t);
    hide Rep, NodeAt;
    assert i.addr in all && (c.Frame? ==> c.item.addr in all);
    assert (t.left.Node? ==> t.left.item.addr in all) && (t.right.Node? ==> t.right.item.addr in all);
  }

  /** A node to be replaced, its neighbours, and the block `n` that replaces it. */
  ghost predicate Replaceable(m: seq<int>, n: int, node: int, l: int, r: int, p: int) {
    && NODE_BYTES <= n && NODE_BYTES <= node && (p == NIL || NODE_BYTES <= p)
    && Readable(m, n) && Readable(m, node) && Readable(m, l) && Readable(m, r) && Readable(m, p)
    && ApartPair(n, node) && ApartPair(n, l) && ApartPair(n, r) && ApartPair(n, p)
    && ApartPair(node, l) && ApartPair(node, r) && ApartPair(node, p)
    && (l == NIL || r == NIL || ApartPair(l, r)) && (l == NIL || ApartPair(l, p)) && (r == NIL || ApartPair(r, p))
    && m[node + 8] == l && m[node + 12] == r && m[node + 16] == p
  }

  /** The heap after the seven writes, in program order. */
  ghost function Replaced(m: seq<int>, n: int, node: int, l: int, r: int, p: int): seq<int>
    requires Replaceable(m, n, node, l, r, p)
  {
    var m1 := m[n + 8 := l][n + 12 := r][n + 16 := p][n + 20 := m[node + 20]];
    var m2 := m1[r + 16 := n][l + 16 := n];
    m2[PointerTo(m2, p, node) := n]
  }

  method CopyLinks(h: Memory, n: int, node: int)
    requires h.Valid() && Readable(h.Mem(), n) && Readable(h.Mem(), node) && ApartPair(n, node)
    modifies h.cells
    ensures var m := old(h.Mem());
      h.Mem() == m[n + 8 := m[node + 8]][n + 12 := m[node + 12]][n + 16 := m[node + 16]][n + 20 := m[node + 20]]
  {
    hide Aligned;
    h.Put(n + 8, h.Get(node + 8));
    h.Put(n + 12, h.Get(node + 12));
    h.Put(n + 16, h.Get(node + 16));
    h.Put(n + 20, h.Get(node + 20));
  }

  method AdoptChildren(h: Memory, n: int, node: int)
    requires h.Valid() && Readable(h.Mem(), node)
    requires var m := h.Mem(); Readable(h.Mem(), m[node + 8]) && ApartPair(node, m[node + 8])
    requires var m := h.Mem(); Readable(h.Mem(), m[node + 12]) && ApartPair(node, m[node + 12])
    modifies h.cells
    ensures var m := old(h.Mem()); h.Mem() == m[m[node + 12] + 16 := n][m[node + 8] + 16 := n]
  {
    hide Aligned;
    h.Put(h.Get(node + 12) + 16, n);
    h.Put(h.Get(node + 8) + 16, n);
  }

  /** What the third part of the replacement finds after the first two. */
  lemma ReplacedSoFar(m: seq<int>, n: int, node: int, l: int, r: int, p: int)
    requires Replaceable(m, n, node, l, r, p)
    ensures Readable(m, n) && Readable(m, node) && ApartPair(n, node) && ApartPair(node, l) && ApartPair(node, r)
    ensures m[node + 8] == l && m[node + 12] == r && m[node + 16] == p && Readable(m, l) && Readable(m, r)
    ensures var m1 := m[n + 8 := l][n + 12 := r][n + 16 := p][n + 20 := m[node + 20]];
      && |m1| == |m| && Readable(m1, node) && Readable(m1, l) && Readable(m1, r) && m1[node + 8] == l && m1[node + 12] == r
      && var m2 := m1[r + 16 := n][l + 16 := n]; |m2| == |m| && Readable(m2, node) && Readable(m2, p) && m2[node + 16] == p
  {
    hide Aligned;
  }

  /** The end of `rb_delete`: block `n` takes over the links and colour of `node`. */
  method ReplaceWords(h: Memory, n: int, node: int, ghost l: int, ghost r: int, ghost p: int)
    requires h.Valid() && Replaceable(h.Mem(), n, node, l, r, p)
    modifies h.cells
    ensures h.Mem() == old(Replaced(h.Mem(), n, node, l, r, p))
  {
    hide Aligned, Replaceable, ApartPair, PointerTo;
    ReplacedSoFar(h.Mem(), n, node, l, r, p);
    CopyLinks(h, n, node);
    AdoptChildren(h, n, node);
    ReplaceChild(h, h.Get(node + 16), node, n);
  }

  lemma InPair(ns: set<int>, a: int, b: int)
    requires Apart(ns) && a in ns && (b == NIL || (b in ns && a != b))
    ensures ApartPair(a, b) && ApartPair(b, a) && NODE_BYTES <= a
  {
  }

  /** The neighbours of a node can be read. */
  lemma NeighbourWords(m: seq<int>, ns: set<int>, c: Ctx, t: Tree)
    requires Rep(m, ns, c, t) && t.Node?
    ensures Readable(m, t.item.addr) && Readable(m, Ptr(t.left)) && Readable(m, Ptr(t.right)) && Readable(m, CtxPtr(c))
    ensures m[t.item.addr + 8] == Ptr(t.left) && m[t.item.addr + 12] == Ptr(t.right) && m[t.item.addr + 16] == CtxPtr(c)
    ensures PointerTo(m, CtxPtr(c), t.item.addr) == HoleCell(c)
  {
    ReadNode(m, ns, c, t);
    hide Aligned;
    ColourOf(m, t.left, t.item.addr);
    ColourOf(m, t.right, t.item.addr);
    ChildCell(m, c, t.item.addr);
  }

  lemma NeighbourSets(ns: set<int>, c: Ctx, t: Tree)
    requires Partition(ns, c, t) && t.Node?
    ensures t.item.addr in ns && (c.Frame? ==> c.item.addr in ns && c.item.addr != t.item.addr)
    ensures t.left.Node? ==> t.left.item.addr in ns && t.left.item.addr != t.item.addr
    ensures t.right.Node? ==> t.right.item.addr in ns && t.right.item.addr != t.item.addr
    ensures t.left.Node? && t.right.Node? ==> t.left.item.addr != t.right.item.addr
    ensures c.Frame? && t.left.Node? ==> c.item.addr != t.left.item.addr
    ensures c.Frame? && t.right.Node? ==> c.item.addr != t.right.item.addr
  {
    assert c.Frame? ==> c.item.addr in CtxAddrs(c);
    assert t.left.Node? ==> t.left.item.addr in Addrs(t.left);
    assert t.right.Node? ==> t.right.item.addr in Addrs(t.right);
  }

  lemma ReplaceableHere(m: seq<int>, ns: set<int>, c: Ctx, t: Tree, i: Item)
    requires Rep(m, ns, c, t) && t.Node? && i.addr !in ns && Apart(ns + {i.addr}) && Readable(m, i.addr)
    ensures Replaceable(m, i.addr, t.item.addr, Ptr(t.left), Ptr(t.right), CtxPtr(c))
    ensures PointerTo(m, CtxPtr(c), t.item.addr) == HoleCell(c)
  {
    var all, n, node, l, r, p := ns + {i.addr}, i.addr, t.item.addr, Ptr(t.left), Ptr(t.right), CtxPtr(c);
    NeighbourWords(m, ns, c, t);
    NeighbourSets(ns, c, t);
    hide Apart, Rep, Readable, ApartPair, PointerTo;
    InPair(all, n, node);
    InPair(all, n, l);
    InPair(all, n, r);
    InPair(all, n, p);
    InPair(all, node, l);
    InPair(all, node, r);
    InPair(all, node, p);
    if l != NIL {
      InPair(all, l, r);
      InPair(all, l, p);
    }
    if r != NIL {
      InPair(all, r, p);
    }
  }

  lemma ReplacedIsSwap(m: seq<int>, c: Ctx, t: Tree, i: Item)
    requires t.Node? && Replaceable(m, i.addr, t.item.addr, Ptr(t.left), Ptr(t.right), CtxPtr(c))
    requires PointerTo(m, CtxPtr(c), t.item.addr) == HoleCell(c)
    requires i.size % 8 == 0 && m[i.addr + 4] == i.size + 1 && m[t.item.addr + 20] == RedWord(t.red)
    requires (t.left.Node? ==> Ptr(t.left) != NIL) && (t.right.Node? ==> Ptr(t.right) != NIL)
    ensures SwapDone(m, Replaced(m, i.addr, t.item.addr, Ptr(t.left), Ptr(t.right), CtxPtr(c)), c, t, i)
  {
    hide Replaced, PointerTo, ApartPair, Aligned;
    var l, r, p := Ptr(t.left), Ptr(t.right), CtxPtr(c);
    ReplacedWords(m, i.addr, t.item.addr, l, r, p);
  }

  lemma ReplacedWords(m: seq<int>, n: int, node: int, l: int, r: int, p: int)
    requires Replaceable(m, n, node, l, r, p)
    ensures var m', cell := Replaced(m, n, node, l, r, p), PointerTo(m, p, node);
      && |m'| == |m| && m'[n + 4] == m[n + 4]
      && m'[n + 8] == l && m'[n + 12] == r && m'[n + 16] == p && m'[n + 20] == m[node + 20]
      && m'[l + 16] == n && m'[r + 16] == n && m'[cell] == n
      && forall x | 0 <= x < |m| && !(n + 8 <= x < n + NODE_BYTES || x == cell || x == l + 16 || x == r + 16) :: m'[x] == m[x]
  {
    hide Aligned;
    var m2 := m[n + 8 := l][n + 12 := r][n + 16 := p][n + 20 := m[node + 20]][r + 16 := n][l + 16 := n];
    assert m2[p + 8] == m[p + 8];
  }

  lemma ReplacedRep(m: seq<int>, ns: set<int>, c: Ctx, t: Tree, i: Item)
    requires Rep(m, ns, c, t) && t.Node? && i.addr !in ns && Apart(ns + {i.addr})
    requires i.size % 8 == 0 && Readable(m, i.addr) && m[i.addr + 4] == i.size + 1
    ensures Replaceable(m, i.addr, t.item.addr, Ptr(t.left), Ptr(t.right), CtxPtr(c))
    ensures var m' := Replaced(m, i.addr, t.item.addr, Ptr(t.left), Ptr(t.right), CtxPtr(c));
      Rep(m', ns - {t.item.addr} + {i.addr}, c, Swapped(t, i)) && OnlyLinks(m, m', ns + {i.addr})
  {
    hide Rep, SwapDone, Apart, Replaceable, PointerTo, Aligned;
    ReplaceableHere(m, ns, c, t, i);
    ReadNode(m, ns, c, t);
    ReplacedIsSwap(m, c, t, i);
    SwapRep(m, Replaced(m, i.addr, t.item.addr, Ptr(t.left), Ptr(t.right), CtxPtr(c)), ns, c, t, i);
  }

  method TakePlace(h: Memory, n: int, node: int, ghost ns: set<int>, ghost c: Ctx, ghost t: Tree, ghost i: Item)
    requires h.Valid() && Rep(h.Mem(), ns, c, t) && t.Node? && t.item.addr == node
    requires i.addr == n && n !in ns && Apart(ns + {n}) && Readable(h.Mem(), n)
    requires i.size % 8 == 0 && h.Mem()[n + 4] == i.size + 1
    modifies h.cells
    ensures Rep(h.Mem(), ns - {node} + {n}, c, Swapped(t, i))
    ensures OnlyLinks(old(h.Mem()), h.Mem(), ns + {n})
  {
    hide Rep, OnlyLinks, Apart, Replaceable, Replaced, Aligned;
    ReplacedRep(h.Mem(), ns, c, t, i);
    ReplaceWords(h, n, node, Ptr(t.left), Ptr(t.right), CtxPtr(c));
  }

  // ---------- rb_delete ----------

  /** A zipper at any given node. */
  lemma {:induction false} Locate(m: seq<int>, ns: set<int>, c: Ctx, t: Tree, a: int) returns (c': Ctx, t': Tree)
    requires Rep(m, ns, c, t) && a in Addrs(t)
    ensures Rep(m, ns, c', t') && Plug(c', t') == Plug(c, t) && t'.Node? && t'.item.addr == a
    decreases t
  {
    c', t' := c, t;
    if t.item.addr != a {
      var s := if a in Addrs(t.left) then Lft else Rgt;
      Down(m, ns, c, t, s);
      c', t' := Locate(m, ns, Frame(s, t.item, t.red, Kid(t, Other(s)), c), Kid(t, s), a);
    }
  }

  /** Dropping the `k`-th block undoes an insertion there. */
  lemma RemovedAt(xs: seq<Item>, i: Item, zs: seq<Item>)
    ensures InsertedAt(xs + zs, |xs|, i, xs + [i] + zs)
  {
    assert (xs + zs)[..|xs|] == xs && (xs + zs)[|xs|..] == zs;
  }

  lemma SortedWithout(xs: seq<Item>, k: nat, i: Item, ys: seq<Item>)
    requires InsertedAt(xs, k, i, ys) && Sorted(ys)
    ensures Sorted(xs)
  {
    forall a, b | 0 <= a < b < |xs| ensures Less(xs[a], xs[b]) {
      var a', b' := if a < k then a else a + 1, if b < k then b else b + 1;
      assert xs[a] == ys[a'] && xs[b] == ys[b'];
    }
  }

  /** A block occurs only once in a sorted sequence. */
  lemma OneIndex(xs: seq<Item>, j: nat, k: nat)
    requires Sorted(xs) && j < |xs| && k < |xs| && xs[j].addr == xs[k].addr && xs[j].size == xs[k].size
    ensures j == k
  {
  }

  /** Replacing the node by its successor, after the successor was taken out, takes out the node. */
  lemma ReplacedOrder(xs: seq<Item>, n: Item, i: Item, zs: seq<Item>, pre: seq<Item>, post: seq<Item>)
    requires Sorted(xs + [n] + [i] + zs) && xs + [n] + zs == pre + [n] + post
    ensures InsertedAt(pre + [i] + post, |xs|, n, xs + [n] + [i] + zs)
  {
    var ys := xs + [n] + zs;
    RemovedAt(xs + [n], i, zs);
    assert (xs + [n]) + zs == ys && (xs + [n]) + [i] + zs == xs + [n] + [i] + zs;
    SortedWithout(ys, |xs + [n]|, i, xs + [n] + [i] + zs);
    assert ys[|xs|] == n && ys[|pre|] == n;
    OneIndex(ys, |xs|, |pre|);
    assert pre == ys[..|xs|] == xs && post == ys[|xs| + 1..] == zs;
    RemovedAt(xs, n, [i] + zs);
    assert xs + [n] + ([i] + zs) == xs + [n] + [i] + zs && xs + ([i] + zs) == pre + [i] + post;
  }

  lemma AroundSwapped(c: Ctx, t: Tree, i: Item)
    requires t.Node?
    ensures InOrder(Plug(c, Swapped(t, i))) == Smaller(c, t) + [i] + Larger(c, t)
  {
    AroundNode(c, Swapped(t, i));
  }

  /** The order of the blocks while a node `t` with two children is taken out. */
  lemma ThickOrder(c: Ctx, t: Tree, cs: Ctx, ts: Tree, w1: Tree, c1: Ctx, t1: Tree)
    requires t.Node? && ts.Node? && ts.left == Leaf && t1.Node? && t1.item == t.item
    requires Plug(cs, ts) == Plug(c, t) && Before(cs) == Smaller(c, t) + [t.item]
    requires Sorted(InOrder(Plug(c, t)))
    requires InOrder(w1) == Before(cs) + InOrder(ts.right) + After(cs) && w1 == Plug(c1, t1)
    ensures InsertedAt(InOrder(Plug(c1, Swapped(t1, ts.item))), |Smaller(c, t)|, t.item, InOrder(Plug(c, t)))
  {
    hide InOrder, Before, After, Plug, InsertedAt, Sorted, Smaller, Larger;
    ThickWhole(c, t, cs, ts);
    ThickRest(c, t, cs, ts);
    AroundNode(c1, t1);
    AroundSwapped(c1, t1, ts.item);
    ReplacedOrder(Smaller(c, t), t.item, ts.item, Larger(cs, ts), Smaller(c1, t1), Larger(c1, t1));
  }

  lemma ThickWhole(c: Ctx, t: Tree, cs: Ctx, ts: Tree)
    requires t.Node? && ts.Node? && ts.left == Leaf
    requires Before(cs) == Smaller(c, t) + [t.item]
    ensures InOrder(Plug(cs, ts)) == Smaller(c, t) + [t.item] + [ts.item] + Larger(cs, ts)
  {
    AroundNode(cs, ts);
    assert Before(cs) + [] == Before(cs);
    assert Before(cs) == Smaller(c, t) + [t.item];
  }

  lemma ThickRest(c: Ctx, t: Tree, cs: Ctx, ts: Tree)
    requires t.Node? && ts.Node?
    requires Before(cs) == Smaller(c, t) + [t.item]
    ensures Before(cs) + InOrder(ts.right) + After(cs) == Smaller(c, t) + [t.item] + Larger(cs, ts)
  {
    assert Before(cs) == Smaller(c, t) + [t.item];
  }

  lemma SwappedRB(c: Ctx, t: Tree, i: Item)
    requires t.Node? && RB(Plug(c, t))
    ensures RB(Plug(c, Swapped(t, i)))
  {
    PlugRB(c, t);
    PlugRB(c, Swapped(t, i));
  }

  /** The node is still in the tree, with the same size. */
  lemma StillThere(m: seq<int>, ns: set<int>, w: Tree, xs: seq<Item>, x: Item, zs: seq<Item>)
    requires Rep(m, ns, Top, w) && InOrder(w) == xs + [x] + zs
    ensures x.addr in Addrs(w) && x.addr in ns && forall y :: y in InOrder(w) && y.addr == x.addr ==> y == x
  {
    InOrderAddrs(w);
    assert x in InOrder(w);
    ItemsInMemory(m, w, NIL, x);
    forall y | y in InOrder(w) && y.addr == x.addr ensures y == x {
      ItemsInMemory(m, w, NIL, y);
    }
  }

  lemma SizeWord(m: seq<int>, ns: set<int>, c: Ctx, t: Tree)
    requires Rep(m, ns, c, t) && t.Node?
    ensures NODE_BYTES <= t.item.addr && Readable(m, t.item.addr)
    ensures t.item.size % 8 == 0 && m[t.item.addr + 4] == t.item.size + 1
  {
  }

  lemma SameSize(m: seq<int>, m': seq<int>, a: int)
    requires SameNode(m, m', a) && Readable(m, a)
    ensures a + NODE_BYTES <= |m'| && m'[a + 4] == m[a + 4]
  {
  }

  /** After the successor was taken out: its size word is intact and the node can be found again. */
  lemma ThickMiddle(m0: seq<int>, m1: seq<int>, ns: set<int>, c: Ctx, t: Tree, cs: Ctx, ts: Tree, w1: Tree)
    returns (c1: Ctx, t1: Tree)
    requires t.Node? && Rep(m0, ns, cs, ts) && ts.Node? && Before(cs) == Smaller(c, t) + [t.item]
    requires OnlyLinks(m0, m1, ns - {ts.item.addr}) && Rep(m1, ns - {ts.item.addr}, Top, w1)
    requires InOrder(w1) == Before(cs) + InOrder(ts.right) + After(cs)
    ensures Rep(m1, ns - {ts.item.addr}, c1, t1) && Plug(c1, t1) == w1 && t1.Node? && t1.item == t.item
    ensures t.item.addr in ns - {ts.item.addr}
    ensures var i, ns' := ts.item, ns - {ts.item.addr};
      && Apart(ns' + {i.addr}) && Readable(m1, i.addr) && i.size % 8 == 0 && m1[i.addr + 4] == i.size + 1
      && ns' - {t.item.addr} + {i.addr} == ns - {t.item.addr} && ns' + {i.addr} == ns
  {
    hide Rep, InOrder, Before, After, Apart, OnlyLinks, SameNode;
    var ns', n := ns - {ts.item.addr}, ts.item.addr;
    ThickRest(c, t, cs, ts);
    StillThere(m1, ns', w1, Smaller(c, t), t.item, Larger(cs, ts));
    c1, t1 := Locate(m1, ns', Top, w1, t.item.addr);
    AroundNode(c1, t1);
    NodesApart(m0, ns, cs, ts);
    SizeWord(m0, ns, cs, ts);
    OnlyLinksSpares(m0, m1, ns', n);
    SameSize(m0, m1, n);
    assert ns' - {t.item.addr} + {n} == ns - {t.item.addr} && ns' + {n} == ns;
  }

  /** A node with two children: its successor is taken out of the tree and then takes its place. */
  method DeleteThick(h: Memory, n: int, node: int, ghost ns: set<int>, ghost c: Ctx, ghost t: Tree, ghost cs: Ctx, ghost ts: Tree)
    returns (ghost w: Tree)
    requires h.Valid() && t.Node? && t.item.addr == node
    requires Rep(h.Mem(), ns, cs, ts) && ts.Node? && ts.item.addr == n && ts.left == Leaf
    requires Plug(cs, ts) == Plug(c, t) && Before(cs) == Smaller(c, t) + [t.item]
    requires RB(Plug(c, t)) && Sorted(InOrder(Plug(c, t)))
    modifies h.cells
    ensures Rep(h.Mem(), ns - {node}, Top, w) && RB(w)
    ensures InsertedAt(InOrder(w), |Smaller(c, t)|, t.item, InOrder(Plug(c, t)))
    ensures OnlyLinks(old(h.Mem()), h.Mem(), ns)
  {
    hide Rep, RB, Sorted, InsertedAt, Apart, OnlyLinks;
    ghost var m0 := h.Mem();
    ghost var w1 := DeleteThin(h, n, ns, cs, ts);
    ghost var m1 := h.Mem();
    ghost var c1, t1 := ThickMiddle(m0, m1, ns, c, t, cs, ts, w1);
    TakePlace(h, n, node, ns - {n}, c1, t1, ts.item);
    w := Plug(c1, Swapped(t1, ts.item));
    UpAll(h.Mem(), ns - {node}, c1, Swapped(t1, ts.item));
    SwappedRB(c1, t1, ts.item);
    ThickOrder(c, t, cs, ts, w1, c1, t1);
    OnlyLinksMore(m0, m1, ns - {n}, ns);
    OnlyLinksTrans(m0, m1, h.Mem(), ns);
  }

  lemma OnlyLinksMore(m: seq<int>, m': seq<int>, ns: set<int>, more: set<int>)
    requires OnlyLinks(m, m', ns) && ns <= more
    ensures OnlyLinks(m, m', more)
  {
    forall x | 0 <= x < |m| && m[x] != m'[x] ensures LinkWord(more, x) {
      assert LinkWord(ns, x);
    }
  }

  lemma ThinOrder(c: Ctx, t: Tree)
    requires AtMostOneChild(t)
    ensures InsertedAt(Before(c) + InOrder(OnlyChild(t)) + After(c), |Smaller(c, t)|, t.item, InOrder(Plug(c, t)))
  {
    hide InOrder, Plug, Before, After, InsertedAt, Smaller, Larger;
    AroundNode(c, t);
    ThinRest(c, t);
    RemovedAt(Smaller(c, t), t.item, Larger(c, t));
  }

  lemma ThinRest(c: Ctx, t: Tree)
    requires AtMostOneChild(t)
    ensures Before(c) + InOrder(OnlyChild(t)) + After(c) == Smaller(c, t) + Larger(c, t)
  {
    if t.left.Leaf? {
      assert Smaller(c, t) == Before(c);
    } else {
      assert Larger(c, t) == After(c);
    }
  }

  /** `rb_delete`: exactly the given node leaves the tree; the tree stays red-black and in order. */
  method Delete(h: Memory, node: int, ghost ns: set<int>, ghost w: Tree) returns (ghost w': Tree, ghost k: nat, ghost i: Item)
    requires h.Valid() && Rep(h.Mem(), ns, Top, w) && RB(w) && Sorted(InOrder(w)) && node in ns
    modifies h.cells
    ensures Rep(h.Mem(), ns - {node}, Top, w') && RB(w') && Sorted(InOrder(w'))
    ensures i.addr == node && InsertedAt(InOrder(w'), k, i, InOrder(w))
    ensures OnlyLinks(old(h.Mem()), h.Mem(), ns)
  {
    hide Rep, RB, Sorted, InsertedAt, Apart, OnlyLinks, InOrder, Before, After, Plug, Smaller;
    NodesOfRep(h.Mem(), ns, w);
    ghost var m := h.Mem();
    ghost var c, t := Locate(m, ns, Top, w, node);
    TopPlug(w);
    ReadNode(m, ns, c, t);
    i, k := t.item, |Smaller(c, t)|;
    var n := node;
    ghost var cs, ts := c, t;
    if !(h.Get(node + 8) == NIL || h.Get(node + 12) == NIL) {
      n, cs, ts := Successor(h, node, ns, c, t);
      SuccessorDiffers(m, ns, w, c, t, cs, ts);
    }
    if n != node {
      w' := DeleteThick(h, n, node, ns, c, t, cs, ts);
    } else {
      w' := DeleteThin(h, n, ns, c, t);
      ThinOrder(c, t);
      OnlyLinksMore(m, h.Mem(), ns - {n}, ns);
    }
    SortedWithout(InOrder(w'), k, i, InOrder(w));
  }

  lemma SuccessorDiffers(m: seq<int>, ns: set<int>, w: Tree, c: Ctx, t: Tree, cs: Ctx, ts: Tree)
    requires Rep(m, ns, Top, w) && Sorted(InOrder(w)) && t.Node? && ts.Node? && ts.left == Leaf
    requires Plug(cs, ts) == w && Before(cs) == Smaller(c, t) + [t.item]
    ensures ts.item.addr != t.item.addr
  {
    hide Rep, InOrder, Before, After, Plug;
    ThickWhole(c, t, cs, ts);
    var xs, zs := Smaller(c, t), Larger(cs, ts);
    assert InOrder(w) == xs + [t.item] + ([ts.item] + zs);
    StillThere(m, ns, w, xs, t.item, [ts.item] + zs);
    assert InOrder(w)[|xs|] == t.item && InOrder(w)[|xs| + 1] == ts.item;
  }

  lemma TopPlug(w: Tree)
    ensures Plug(Top, w) == w
  {
  }

  lemma NodesOfRep(m: seq<int>, ns: set<int>, w: Tree)
    requires Rep(m, ns, Top, w)
    ensures Addrs(w) == ns
  {
  }
}
