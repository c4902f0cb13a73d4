/** Writing colour words, and reading the words around the focus. */
module RbPaint {
  import opened Memlib
  import opened RbModel
  import opened RbMem

  method SetSibling(h: Memory, sib: int, red: bool, ghost ns: set<int>, ghost c: Ctx, ghost t: Tree)
    requires h.Valid() && Rep(h.Mem(), ns, c, t) && c.Frame? && c.sib.Node? && c.sib.item.addr == sib
    modifies h.cells
    ensures Rep(h.Mem(), ns, c.(sib := Paint(c.sib, red)), t)
    ensures OnlyLinks(old(h.Mem()), h.Mem(), ns)
  {
    PaintSibling(h.Mem(), ns, c, t, red);
    assert NODE_BYTES <= sib;
    h.Put(sib + 20, RedWord(red));
  }

  method SetParent(h: Memory, parent: int, red: bool, ghost ns: set<int>, ghost c: Ctx, ghost t: Tree)
    requires h.Valid() && Rep(h.Mem(), ns, c, t) && c.Frame? && c.item.addr == parent
    modifies h.cells
    ensures Rep(h.Mem(), ns, c.(red := red), t)
    ensures OnlyLinks(old(h.Mem()), h.Mem(), ns)
  {
    PaintParent(h.Mem(), ns, c, t, red);
    h.Put(parent + 20, RedWord(red));
  }

  method SetFocus(h: Memory, node: int, red: bool, ghost ns: set<int>, ghost c: Ctx, ghost t: Tree)
    requires h.Valid() && Rep(h.Mem(), ns, c, t) && t.Node? && t.item.addr == node
    modifies h.cells
    ensures Rep(h.Mem(), ns, c, Paint(t, red))
    ensures OnlyLinks(old(h.Mem()), h.Mem(), ns)
  {
    PaintFocus(h.Mem(), ns, c, t, red);
    h.Put(node + 20, RedWord(red));
  }

  method SetChild(h: Memory, child: int, red: bool, ghost ns: set<int>, ghost c: Ctx, ghost t: Tree, ghost s: Side)
    requires h.Valid() && Rep(h.Mem(), ns, c, t) && t.Node? && Kid(t, s).Node? && Kid(t, s).item.addr == child
    modifies h.cells
    ensures Rep(h.Mem(), ns, c, Mk(s, t.item, t.red, Paint(Kid(t, s), red), Kid(t, Other(s))))
    ensures OnlyLinks(old(h.Mem()), h.Mem(), ns)
  {
    assert TreeAt(h.Mem(), Kid(t, s), t.item.addr);
    PaintChild(h.Mem(), ns, c, t, s, red);
    h.Put(child + 20, RedWord(red));
  }

  lemma OpenNode(m: seq<int>, ns: set<int>, c: Ctx, t: Tree)
    requires Rep(m, ns, c, t) && t.Node?
    ensures NodeAt(m, t.item, t.red, Ptr(t.left), Ptr(t.right), CtxPtr(c))
  {
  }

  /** The colour word of a subtree; nil counts as black. */
  lemma ColourOf(m: seq<int>, t: Tree, parent: int)
    requires TreeAt(m, t, parent) && NilAt(m)
    ensures Readable(m, Ptr(t)) && m[Ptr(t) + 20] == RedWord(Red(t))
  {
  }

  lemma ParentWords(m: seq<int>, ns: set<int>, c: Ctx, t: Tree)
    requires Rep(m, ns, c, t) && c.Frame?
    ensures Readable(m, c.item.addr)
    ensures m[c.item.addr + Off(c.side)] == Ptr(t) && m[c.item.addr + Off(Other(c.side))] == Ptr(c.sib)
    ensures m[c.item.addr + 20] == RedWord(c.red) && m[c.item.addr + 16] == CtxPtr(c.up)
  {
  }

  /** A node is found on the side of its parent where the context has its hole. */
  lemma SideOfNode(m: seq<int>, ns: set<int>, c: Ctx, t: Tree, s: Side)
    requires Rep(m, ns, c, t) && c.Frame? && t.Node?
    ensures NODE_BYTES <= c.item.addr && Readable(m, c.item.addr)
    ensures m[c.item.addr + Off(s)] == t.item.addr <==> c.side == s
  {
    assert t.item.addr in Addrs(t) && t.item.addr in ns;
    assert c.sib.Node? ==> c.sib.item.addr in CtxAddrs(c);
  }
}
