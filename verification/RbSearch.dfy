/** `rb_find`, `rb_find_exact` and `rb_successor`: walks that change nothing. */
module RbSearch {
  import opened Common
  import opened Memlib
  import opened RbModel
  import opened RbMem
  import opened RbPaint

  // ---------- rb_find ----------

  /** `best` is the least block of `xs` with at least `size` bytes, or nil if there is none. */
  ghost predicate BestFit(xs: seq<Item>, size: int, best: int) {
    if best == NIL then
      forall x :: x in xs ==> x.size < size
    else
      exists b :: b in xs && b.addr == best && b.size >= size && forall x :: x in xs && x.size >= size ==> x == b || Less(b, x)
  }

  /** The walk of `rb_find` has discarded `pre`, may still choose from `t`, and keeps `post` in reserve. */
  ghost predicate FindInv(m: seq<int>, w: Tree, size: int, t: Tree, parent: int, best: int, pre: seq<Item>, post: seq<Item>) {
    && TreeAt(m, t, parent)
    && InOrder(w) == pre + InOrder(t) + post
    && (forall x :: x in pre ==> x.size < size)
    && (forall x :: x in post ==> x.size >= size)
    && best == (if post == [] then NIL else post[0].addr)
    && (forall x :: x in InOrder(w) ==> x.addr != NIL)
  }

  lemma FindReads(m: seq<int>, w: Tree, size: int, t: Tree, parent: int, best: int, pre: seq<Item>, post: seq<Item>)
    requires FindInv(m, w, size, t, parent, best, pre, post)
    ensures Ptr(t) == NIL <==> t == Leaf
    ensures t.Node? ==>
      && NODE_BYTES <= t.item.addr && Readable(m, t.item.addr)
      && t.item.size % 8 == 0 && m[t.item.addr + 4] == t.item.size + 1
      && m[t.item.addr + 8] == Ptr(t.left) && m[t.item.addr + 12] == Ptr(t.right)
  {
  }

  /** The block is too small, and so is everything before it. */
  lemma FindRight(m: seq<int>, w: Tree, size: int, t: Tree, parent: int, best: int, pre: seq<Item>, post: seq<Item>)
    requires FindInv(m, w, size, t, parent, best, pre, post) && Sorted(InOrder(w)) && t.Node? && t.item.size < size
    ensures FindInv(m, w, size, t.right, t.item.addr, best, pre + InOrder(t.left) + [t.item], post)
  {
    var xs, k := InOrder(w), |pre| + |InOrder(t.left)|;
    var pre' := pre + InOrder(t.left) + [t.item];
    assert xs == pre' + InOrder(t.right) + post;
    forall x | x in pre' ensures x.size < size {
      var j :| 0 <= j < |pre'| && pre'[j] == x;
      assert xs[j] == x && xs[k] == t.item;
    }
  }

  /** The block is large enough, and so is everything after it. */
  lemma FindLeft(m: seq<int>, w: Tree, size: int, t: Tree, parent: int, best: int, pre: seq<Item>, post: seq<Item>)
    requires FindInv(m, w, size, t, parent, best, pre, post) && Sorted(InOrder(w)) && t.Node? && t.item.size >= size
    ensures FindInv(m, w, size, t.left, t.item.addr, t.item.addr, pre, [t.item] + InOrder(t.right) + post)
  {
    var xs, k := InOrder(w), |pre| + |InOrder(t.left)|;
    var post' := [t.item] + InOrder(t.right) + post;
    assert xs == pre + InOrder(t.left) + post';
    forall x | x in post' ensures x.size >= size {
      var j :| 0 <= j < |post'| && post'[j] == x;
      assert xs[k + j] == x && xs[k] == t.item;
    }
  }

  lemma TooSmall(pre: seq<Item>, post: seq<Item>, size: int, j: nat)
    requires forall x :: x in pre ==> x.size < size
    ensures j < |pre| ==> (pre + post)[j].size < size
  {
  }

  lemma FindEnd(m: seq<int>, w: Tree, size: int, parent: int, best: int, pre: seq<Item>, post: seq<Item>)
    requires FindInv(m, w, size, Leaf, parent, best, pre, post) && Sorted(InOrder(w))
    ensures BestFit(InOrder(w), size, best)
  {
    var xs := InOrder(w);
    assert xs == pre + post;
    if post != [] {
      var b := post[0];
      assert b in xs;
      forall x | x in xs && x.size >= size ensures x == b || Less(b, x) {
        var j :| 0 <= j < |xs| && xs[j] == x;
        TooSmall(pre, post, size, j);
        assert xs[|pre|] == b;
      }
    }
  }

  lemma FindStart(m: seq<int>, ns: set<int>, w: Tree, size: int)
    requires Rep(m, ns, Top, w)
    ensures NODE_BYTES <= |m| && m[NIL + 8] == Ptr(w)
    ensures FindInv(m, w, size, w, NIL, NIL, [], [])
  {
    assert InOrder(w) == [] + InOrder(w) + [];
    InOrderAddrs(w);
    forall x | x in InOrder(w) ensures x.addr != NIL {
      assert x.addr in ns;
    }
  }

  /** `rb_find`: the best fit; with n nodes in the tree it takes at most 2 log2(n + 1) iterations. */
  method Find(h: Memory, size: int, ghost ns: set<int>, ghost w: Tree) returns (best: int, ghost nodes: seq<int>)
    requires h.Valid() && Rep(h.Mem(), ns, Top, w) && RB(w) && Sorted(InOrder(w))
    ensures BestFit(InOrder(w), size, best)
    ensures Walk(h.Mem(), nodes) && var n := |InOrder(w)|; Pow2(|nodes| - 1) <= (n + 1) * (n + 1)
  {
    hide Rep, FindInv, BestFit, Sorted, InOrder, RB, Pow2, Trail, Aligned;
    ghost var m := h.Mem();
    FindStart(m, ns, w, size);
    NilReadable(m);
    var node := h.Get(NIL + 8);
    best, nodes := NIL, [node];
    TrailStart(m);
    ghost var t, parent, pre, post := w, NIL, [], [];
    while node != NIL
      invariant FindInv(m, w, size, t, parent, best, pre, post) && node == Ptr(t)
      invariant nodes != [] && |nodes| - 1 + Height(t) <= Height(w) && Trail(m, nodes) && nodes[|nodes| - 1] == node
      decreases t
    {
      FindReads(m, w, size, t, parent, best, pre, post);
      if Masked(h.Get(node + 4)) < size {
        FindRight(m, w, size, t, parent, best, pre, post);
        pre, parent, t := pre + InOrder(t.left) + [t.item], t.item.addr, t.right;
        node := h.Get(node + 12);
      } else {
        FindLeft(m, w, size, t, parent, best, pre, post);
        post, parent, t := [t.item] + InOrder(t.right) + post, t.item.addr, t.left;
        best := node;
        node := h.Get(node + 8);
      }
      TrailNext(m, nodes, node);
      nodes := nodes + [node];
    }
    FindReads(m, w, size, t, parent, best, pre, post);
    FindEnd(m, w, size, parent, best, pre, post);
    LogSteps(w, |nodes| - 1);
  }

  // ---------- rb_find_exact ----------

  /** If `block` is in the tree at all, it is in `t`. */
  ghost predicate ExactInv(m: seq<int>, ns: set<int>, t: Tree, parent: int, i: Item) {
    && TreeAt(m, t, parent) && Sorted(InOrder(t)) && Addrs(t) <= ns
    && (i.addr in ns <==> i in InOrder(t))
  }

  lemma ExactReads(m: seq<int>, ns: set<int>, t: Tree, parent: int, i: Item)
    requires ExactInv(m, ns, t, parent, i)
    ensures Ptr(t) == NIL <==> t == Leaf
    ensures t == Leaf ==> i.addr !in ns
    ensures t.Node? ==>
      && t.item.addr in ns && NODE_BYTES <= t.item.addr && Readable(m, t.item.addr)
      && t.item.size % 8 == 0 && m[t.item.addr + 4] == t.item.size + 1
      && m[t.item.addr + 8] == Ptr(t.left) && m[t.item.addr + 12] == Ptr(t.right)
  {
  }

  lemma ExactBelow(m: seq<int>, ns: set<int>, t: Tree, parent: int, i: Item, s: Side)
    requires ExactInv(m, ns, t, parent, i) && t.Node?
    requires if s == Lft then Less(i, t.item) else Less(t.item, i)
    ensures ExactInv(m, ns, Kid(t, s), t.item.addr, i)
  {
    var xs, k := InOrder(t), |InOrder(t.left)|;
    assert xs[k] == t.item;
    assert InOrder(t.left) == xs[..k] && InOrder(t.right) == xs[k + 1..];
    if i in xs {
      var j :| 0 <= j < |xs| && xs[j] == i;
      if s == Lft {
        assert j < k && xs[..k][j] == i;
      } else {
        assert j > k && xs[k + 1..][j - k - 1] == i;
      }
    }
    assert i in InOrder(Kid(t, s)) ==> i in xs;
  }

  lemma {:induction false} ItemsInMemory(m: seq<int>, t: Tree, parent: int, x: Item)
    requires TreeAt(m, t, parent) && x in InOrder(t)
    ensures NODE_BYTES <= x.addr && Readable(m, x.addr)
    ensures x.size % 8 == 0 && m[x.addr + 4] == x.size + 1
  {
    if x in InOrder(t.left) {
      ItemsInMemory(m, t.left, t.item.addr, x);
    } else if x in InOrder(t.right) {
      ItemsInMemory(m, t.right, t.item.addr, x);
    }
  }

  lemma ExactStart(m: seq<int>, ns: set<int>, w: Tree, i: Item)
    requires Rep(m, ns, Top, w) && Sorted(InOrder(w))
    requires 0 <= i.addr && i.addr + 4 < |m| && i.size == Masked(m[i.addr + 4])
    ensures NODE_BYTES <= |m| && m[NIL + 8] == Ptr(w)
    ensures ExactInv(m, ns, w, NIL, i)
  {
    hide Masked, Aligned;
    InOrderAddrs(w);
    if i.addr in ns {
      var x :| x in InOrder(w) && x.addr == i.addr;
      ItemsInMemory(m, w, NIL, x);
      MaskedTag(x.size);
      assert x == i;
    }
  }

  /** `rb_find_exact`: is the block a node of the tree? */
  method FindExact(h: Memory, block: int, ghost ns: set<int>, ghost w: Tree) returns (found: bool)
    requires h.Valid() && Rep(h.Mem(), ns, Top, w) && Sorted(InOrder(w))
    requires 0 <= block && Aligned(block + 4) && block + 8 <= h.brk
    ensures found <==> block in ns
  {
    hide Rep, ExactInv, Sorted, InOrder;
    ghost var m, i := h.Mem(), Item(Masked(h.Get(block + 4)), block);
    ExactStart(m, ns, w, i);
    var node := h.Get(NIL + 8);
    ghost var t, parent := w, NIL;
    while node != NIL
      invariant ExactInv(m, ns, t, parent, i) && node == Ptr(t)
      decreases t
    {
      ExactReads(m, ns, t, parent, i);
      ghost var s := Rgt;
      if node == block {
        return true;
      } else if Masked(h.Get(node + 4)) > Masked(h.Get(block + 4)) {
        node, s := h.Get(node + 8), Lft;
      } else if Masked(h.Get(node + 4)) == Masked(h.Get(block + 4)) {
        if node > block {
          node, s := h.Get(node + 8), Lft;
        } else {
          node := h.Get(node + 12);
        }
      } else {
        node := h.Get(node + 12);
      }
      ExactBelow(m, ns, t, parent, i, s);
      parent, t := t.item.addr, Kid(t, s);
    }
    ExactReads(m, ns, t, parent, i);
    return false;
  }

  // ---------- rb_successor ----------

  lemma ReadNode(m: seq<int>, ns: set<int>, c: Ctx, t: Tree)
    requires Rep(m, ns, c, t) && t.Node?
    ensures NODE_BYTES <= t.item.addr && Readable(m, t.item.addr) && t.item.addr in ns
    ensures m[t.item.addr + 8] == Ptr(t.left) && m[t.item.addr + 12] == Ptr(t.right)
    ensures m[t.item.addr + 16] == CtxPtr(c) && m[t.item.addr + 20] == RedWord(t.red)
    ensures Ptr(t.left) == NIL <==> t.left == Leaf
    ensures Ptr(t.right) == NIL <==> t.right == Leaf
    ensures Readable(m, CtxPtr(c))
  {
  }

  /** The right subtree of `t`, entered. */
  function IntoRight(c: Ctx, t: Tree): Ctx
    requires t.Node?
  {
    Frame(Rgt, t.item, t.red, t.left, c)
  }

  /** The leftmost node of the focus. */
  method Leftmost(h: Memory, start: int, ghost ns: set<int>, ghost c0: Ctx, ghost t0: Tree)
    returns (succ: int, ghost c: Ctx, ghost t: Tree)
    requires h.Valid() && Rep(h.Mem(), ns, c0, t0) && t0.Node? && t0.item.addr == start
    ensures Rep(h.Mem(), ns, c, t) && t.Node? && t.item.addr == succ && t.left == Leaf
    ensures Plug(c, t) == Plug(c0, t0) && Before(c) == Before(c0)
  {
    hide Rep, Aligned;
    succ, c, t := start, c0, t0;
    ReadNode(h.Mem(), ns, c, t);
    var left := h.Get(succ + 8);
    while left != NIL
      invariant Rep(h.Mem(), ns, c, t) && t.Node? && t.item.addr == succ && left == Ptr(t.left)
      invariant Plug(c, t) == Plug(c0, t0) && Before(c) == Before(c0)
      decreases t
    {
      ReadNode(h.Mem(), ns, c, t);
      Down(h.Mem(), ns, c, t, Lft);
      c, t := Frame(Lft, t.item, t.red, t.right, c), t.left;
      succ := left;
      ReadNode(h.Mem(), ns, c, t);
      left := h.Get(succ + 8);
    }
    ReadNode(h.Mem(), ns, c, t);
  }

  /** The nearest node to the right above the focus. */
  method Above(h: Memory, start: int, ghost ns: set<int>, ghost c0: Ctx, ghost t0: Tree) returns (succ: int)
    requires h.Valid() && Rep(h.Mem(), ns, c0, t0) && t0.Node? && t0.item.addr == start
    ensures if After(c0) == [] then succ == NIL else succ == After(c0)[0].addr
  {
    hide Rep, Aligned;
    var node := start;
    ghost var c, t := c0, t0;
    ReadAbove(h.Mem(), ns, c, t);
    succ := h.Get(node + 16);
    while h.Get(succ + 12) == node
      invariant Rep(h.Mem(), ns, c, t) && t.Node? && t.item.addr == node && succ == CtxPtr(c)
      invariant Readable(h.Mem(), succ)
      invariant After(c) == After(c0)
      decreases c
    {
      ReadAbove(h.Mem(), ns, c, t);
      Up(h.Mem(), ns, c, t);
      t, c := Mk(c.side, c.item, c.red, t, c.sib), c.up;
      node := succ;
      ReadAbove(h.Mem(), ns, c, t);
      succ := h.Get(succ + 16);
    }
    ReadAbove(h.Mem(), ns, c, t);
  }

  lemma ReadAbove(m: seq<int>, ns: set<int>, c: Ctx, t: Tree)
    requires Rep(m, ns, c, t) && t.Node?
    ensures NODE_BYTES <= t.item.addr && Readable(m, t.item.addr) && m[t.item.addr + 16] == CtxPtr(c)
    ensures Readable(m, CtxPtr(c))
    ensures m[CtxPtr(c) + 12] == t.item.addr <==> c.Frame? && c.side == Rgt
  {
    hide Aligned;
    NilReadable(m);
    if c.Frame? {
      SideOfNode(m, ns, c, t, Rgt);
    }
  }

  /** `rb_successor`: the next block in the order, or nil. */
  method Successor(h: Memory, node: int, ghost ns: set<int>, ghost c: Ctx, ghost t: Tree)
    returns (succ: int, ghost c': Ctx, ghost t': Tree)
    requires h.Valid() && Rep(h.Mem(), ns, c, t) && t.Node? && t.item.addr == node
    ensures if Larger(c, t) == [] then succ == NIL else succ == Larger(c, t)[0].addr
    ensures t.right.Node? ==>
      && Rep(h.Mem(), ns, c', t') && t'.Node? && t'.item.addr == succ && t'.left == Leaf
      && Plug(c', t') == Plug(c, t) && Before(c') == Smaller(c, t) + [t.item]
  {
    hide Rep, Aligned;
    ReadNode(h.Mem(), ns, c, t);
    c', t' := c, t;
    succ := h.Get(node + 12);
    if succ != NIL {
      Down(h.Mem(), ns, c, t, Rgt);
      succ, c', t' := Leftmost(h, succ, ns, IntoRight(c, t), t.right);
      LeftmostIsNext(c, t, c', t');
    } else {
      succ := Above(h, node, ns, c, t);
    }
  }

  lemma LeftmostIsNext(c: Ctx, t: Tree, c': Ctx, t': Tree)
    requires t.Node? && t.right.Node? && t'.Node? && t'.left == Leaf
    requires Plug(c', t') == Plug(IntoRight(c, t), t.right) && Before(c') == Before(IntoRight(c, t))
    ensures InOrder(t.right) != [] && t'.item == Larger(c, t)[0]
  {
    PlugInOrder(c', t');
    PlugInOrder(IntoRight(c, t), t.right);
    var b := |Before(c')|;
    var xs := Before(c') + InOrder(t') + After(c');
    assert xs == Before(c') + InOrder(t.right) + After(c);
    assert xs[b] == t'.item;
    assert xs[b] == Larger(c, t)[0];
  }
}
