/** Red-black trees as values: the shape that `mm_rbtree_ref.c` keeps inside free blocks.
    A tree under repair is a zipper: a context with one hole and the subtree in the hole. */
module RbModel {
  import opened Common

  /** A free block as the tree sees it: ordered by size, then by address. */
  datatype Item = Item(size: int, addr: int)

  /** The source writes every mirrored pair of branches twice; `Side` lets us prove each pair once. */
  datatype Side = Lft | Rgt

  datatype Tree = Leaf | Node(item: Item, red: bool, left: Tree, right: Tree)

  /** A tree with a hole. The hole is the child on `side` of the innermost frame. */
  datatype Ctx = Top | Frame(side: Side, item: Item, red: bool, sib: Tree, up: Ctx)

  function Other(s: Side): Side {
    if s == Lft then Rgt else Lft
  }

  predicate Less(x: Item, y: Item) {
    x.size < y.size || (x.size == y.size && x.addr < y.addr)
  }

  /** The node whose child on side `s` is `near` and whose other child is `far`. */
  function Mk(s: Side, i: Item, red: bool, near: Tree, far: Tree): Tree {
    if s == Lft then Node(i, red, near, far) else Node(i, red, far, near)
  }

  function Kid(t: Tree, s: Side): Tree
    requires t.Node?
  {
    if s == Lft then t.left else t.right
  }

  predicate Red(t: Tree) {
    t.Node? && t.red
  }

  function Paint(t: Tree, red: bool): Tree {
    match t
    case Leaf => Leaf
    case Node(i, _, l, r) => Node(i, red, l, r)
  }

  function Plug(c: Ctx, t: Tree): Tree {
    match c
    case Top => t
    case Frame(s, i, red, sib, up) => Plug(up, Mk(s, i, red, t, sib))
  }

  function Depth(c: Ctx): nat {
    if c.Top? then 0 else 1 + Depth(c.up)
  }

  // ---------- contents ----------

  /** The blocks of a tree from smallest to largest. */
  function InOrder(t: Tree): seq<Item> {
    match t
    case Leaf => []
    case Node(i, _, l, r) => InOrder(l) + [i] + InOrder(r)
  }

  function Before(c: Ctx): seq<Item> {
    match c
    case Top => []
    case Frame(s, i, _, sib, up) =>
      if s == Lft then Before(up) else Before(up) + (InOrder(sib) + [i])
  }

  function After(c: Ctx): seq<Item> {
    match c
    case Top => []
    case Frame(s, i, _, sib, up) =>
      if s == Lft then [i] + InOrder(sib) + After(up) else After(up)
  }

  lemma {:induction false} PlugInOrder(c: Ctx, t: Tree)
    ensures InOrder(Plug(c, t)) == Before(c) + InOrder(t) + After(c)
  {
    hide InOrder;
    match c
    case Top =>
    case Frame(s, i, red, sib, up) =>
      PlugInOrder(up, Mk(s, i, red, t, sib));
      MkInOrder(s, i, red, t, sib);
      if s == Lft {
        Regroup(Before(up), InOrder(t), [i] + InOrder(sib), After(up));
      } else {
        Regroup(Before(up), InOrder(sib) + [i], InOrder(t), After(up));
      }
  }

  lemma MkInOrder(s: Side, i: Item, red: bool, t: Tree, sib: Tree)
    ensures InOrder(Mk(s, i, red, t, sib)) == if s == Lft then InOrder(t) + ([i] + InOrder(sib)) else (InOrder(sib) + [i]) + InOrder(t)
  {
    if s == Lft {
      assert InOrder(t) + [i] + InOrder(sib) == InOrder(t) + ([i] + InOrder(sib));
    }
  }

  lemma Regroup<T>(a: seq<T>, b: seq<T>, c: seq<T>, d: seq<T>)
    ensures a + (b + c) + d == a + b + (c + d)
    ensures a + (b + c) + d == (a + b) + c + d
  {
  }

  /** A rotation does not change the order of the blocks. */
  lemma RotateInOrder(s: Side, p: Item, cp: bool, a: Tree, r: Item, cr: bool, b: Tree, d: Tree, cp': bool, cr': bool)
    ensures InOrder(Mk(s, p, cp, a, Mk(s, r, cr, b, d))) == InOrder(Mk(s, r, cr', Mk(s, p, cp', a, b), d))
  {
    if s == Lft {
      Reassociate(InOrder(a), p, InOrder(b), r, InOrder(d));
    } else {
      Reassociate(InOrder(d), r, InOrder(b), p, InOrder(a));
    }
  }

  lemma Reassociate(xs: seq<Item>, p: Item, ys: seq<Item>, r: Item, zs: seq<Item>)
    ensures xs + [p] + (ys + [r] + zs) == (xs + [p] + ys) + [r] + zs
  {
  }

  /** The blocks before the root of the focus, and those after it. */
  function Smaller(c: Ctx, t: Tree): seq<Item>
    requires t.Node?
  {
    Before(c) + InOrder(t.left)
  }

  function Larger(c: Ctx, t: Tree): seq<Item>
    requires t.Node?
  {
    InOrder(t.right) + After(c)
  }

  /** The order of the whole tree, around the root of the focus. */
  lemma AroundNode(c: Ctx, t: Tree)
    requires t.Node?
    ensures InOrder(Plug(c, t)) == Smaller(c, t) + [t.item] + Larger(c, t)
  {
    PlugInOrder(c, t);
    Around(Before(c), InOrder(t.left), t.item, InOrder(t.right), After(c));
  }

  lemma Around(b: seq<Item>, l: seq<Item>, i: Item, r: seq<Item>, a: seq<Item>)
    ensures b + (l + [i] + r) + a == (b + l) + [i] + (r + a)
  {
  }

  lemma SamePlug(c: Ctx, t: Tree, t': Tree)
    requires InOrder(t) == InOrder(t')
    ensures InOrder(Plug(c, t)) == InOrder(Plug(c, t'))
  {
    PlugInOrder(c, t);
    PlugInOrder(c, t');
  }

  ghost predicate Sorted(xs: seq<Item>) {
    forall i, j :: 0 <= i < j < |xs| ==> Less(xs[i], xs[j])
  }

  function Addrs(t: Tree): set<int> {
    match t
    case Leaf => {}
    case Node(i, _, l, r) => {i.addr} + Addrs(l) + Addrs(r)
  }

  function CtxAddrs(c: Ctx): set<int> {
    match c
    case Top => {}
    case Frame(_, i, _, sib, up) => {i.addr} + Addrs(sib) + CtxAddrs(up)
  }

  /** No block occurs twice. */
  ghost predicate Uniq(t: Tree) {
    match t
    case Leaf => true
    case Node(i, _, l, r) =>
      Uniq(l) && Uniq(r) && i.addr !in Addrs(l) && i.addr !in Addrs(r) && Addrs(l) !! Addrs(r)
  }

  ghost predicate CtxUniq(c: Ctx) {
    match c
    case Top => true
    case Frame(_, i, _, sib, up) =>
      Uniq(sib) && CtxUniq(up) && i.addr !in Addrs(sib) && i.addr !in CtxAddrs(up) && Addrs(sib) !! CtxAddrs(up)
  }

  lemma {:induction false} PlugAddrs(c: Ctx, t: Tree)
    ensures Addrs(Plug(c, t)) == CtxAddrs(c) + Addrs(t)
  {
    match c
    case Top =>
    case Frame(s, i, red, sib, up) => PlugAddrs(up, Mk(s, i, red, t, sib));
  }

  lemma {:induction false} InOrderAddrs(t: Tree)
    ensures Addrs(t) == set x | x in InOrder(t) :: x.addr
  {
    match t
    case Leaf =>
    case Node(i, _, l, r) =>
      InOrderAddrs(l);
      InOrderAddrs(r);
      var xs := InOrder(t);
      assert forall x :: x in xs <==> x in InOrder(l) || x == i || x in InOrder(r);
  }

  // ---------- balance ----------

  /** Black nodes on the way down the left spine; on a balanced tree, on every way down. */
  function Black(t: Tree): nat {
    match t
    case Leaf => 0
    case Node(_, red, l, _) => Black(l) + (if red then 0 else 1)
  }

  /** Equal black heights everywhere and no red node with a red child. */
  predicate Even(t: Tree) {
    match t
    case Leaf => true
    case Node(_, red, l, r) =>
      Even(l) && Even(r) && Black(l) == Black(r) && (red ==> !Red(l) && !Red(r))
  }

  /** A red-black tree with a black root. */
  predicate RB(t: Tree) {
    Even(t) && !Red(t)
  }

  /** May the hole of `c` be filled with a red root? */
  predicate AllowsRed(c: Ctx) {
    c.Frame? && !c.red
  }

  /** The context is red-black once a tree of black height `h` fills the hole. */
  predicate CtxEven(c: Ctx, h: nat) {
    match c
    case Top => true
    case Frame(_, _, red, sib, up) =>
      && Even(sib) && Black(sib) == h
      && (red ==> !Red(sib) && AllowsRed(up))
      && CtxEven(up, h + (if red then 0 else 1))
  }

  lemma {:induction false} PlugRB(c: Ctx, t: Tree)
    ensures RB(Plug(c, t)) <==> Even(t) && CtxEven(c, Black(t)) && (Red(t) ==> AllowsRed(c))
  {
    match c
    case Top =>
    case Frame(s, i, red, sib, up) => PlugRB(up, Mk(s, i, red, t, sib));
  }

  // ---------- height ----------

  function Max(a: nat, b: nat): nat { if a < b then b else a }

  function Height(t: Tree): nat {
    match t
    case Leaf => 0
    case Node(_, _, l, r) => 1 + Max(Height(l), Height(r))
  }

  function Count(t: Tree): nat {
    match t
    case Leaf => 0
    case Node(_, _, l, r) => 1 + Count(l) + Count(r)
  }

  lemma {:induction false} Pow2Add(a: nat, b: nat)
    ensures Pow2(a + b) == Pow2(a) * Pow2(b)
  {
    if a != 0 {
      Pow2Add(a - 1, b);
      assert Pow2(a + b) == 2 * Pow2(a - 1 + b);
    }
  }

  lemma {:induction false} HeightByBlack(t: Tree)
    requires Even(t)
    ensures Height(t) <= 2 * Black(t) + (if Red(t) then 1 else 0)
    ensures Pow2(Black(t)) <= Count(t) + 1
  {
    match t
    case Leaf =>
    case Node(_, _, l, r) =>
      HeightByBlack(l);
      HeightByBlack(r);
  }

  lemma {:induction false} CountInOrder(t: Tree)
    ensures Count(t) == |InOrder(t)|
  {
    match t
    case Leaf =>
    case Node(_, _, l, r) =>
      CountInOrder(l);
      CountInOrder(r);
  }

  /** With n nodes the height is at most 2 log2(n + 1). */
  lemma LogHeight(t: Tree)
    requires RB(t)
    ensures var n := |InOrder(t)|; Pow2(Height(t)) <= (n + 1) * (n + 1)
  {
    HeightByBlack(t);
    CountInOrder(t);
    var b := Black(t);
    Pow2Monotone(Height(t), b + b);
    Pow2Add(b, b);
    var n := Count(t);
    assert Pow2(b) * Pow2(b) <= (n + 1) * (n + 1) by { MulMono(Pow2(b), n + 1); }
  }

  /** A walk that takes at most one step per level takes at most 2 log2(n + 1) steps. */
  lemma LogSteps(t: Tree, steps: nat)
    requires RB(t) && steps <= Height(t)
    ensures var n := |InOrder(t)|; Pow2(steps) <= (n + 1) * (n + 1)
  {
    LogHeight(t);
    Pow2Monotone(steps, Height(t));
  }

  lemma MulMono(a: nat, b: nat)
    requires a <= b
    ensures a * a <= b * b
  {
  }
}
