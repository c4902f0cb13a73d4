/** The circular free list of `mm_explicit_ref.c`, with a sentinel in the prologue. */
module RingList {
  import opened Common
  import opened Memlib
  import opened Blocks

  const SENTINEL := 8

  /** Node `i` of the ring: the sentinel, the blocks of `xs`, and the sentinel again. */
  function Node(xs: seq<Block>, i: nat): int
    requires i <= |xs| + 1
  {
    if i == 0 || i == |xs| + 1 then SENTINEL else xs[i - 1].addr
  }

  /** Nodes `i` and `i + 1` are linked. The predecessor link of a lonely sentinel is never read, and wrong at first. */
  ghost predicate Tied(m: seq<int>, xs: seq<Block>, i: nat)
    requires i <= |xs|
  {
    && 0 <= Node(xs, i) && Node(xs, i) + 8 <= |m| && 0 <= Node(xs, i + 1) && Node(xs, i + 1) + 8 <= |m|
    && m[Node(xs, i) + 4] == Node(xs, i + 1) && (xs != [] ==> m[Node(xs, i + 1)] == Node(xs, i))
  }

  ghost predicate Inside(m: seq<int>, xs: seq<Block>) {
    24 <= |m| && forall i :: 0 <= i < |xs| ==> 24 <= xs[i].addr && xs[i].addr + 8 <= |m| && Boundary(xs[i].addr)
  }

  ghost predicate Circle(m: seq<int>, xs: seq<Block>) {
    Inside(m, xs) && Spread(xs) && forall i {:trigger Tied(m, xs, i)} :: 0 <= i <= |xs| ==> Tied(m, xs, i)
  }

  /** The same node, or two that do not overlap. */
  predicate Clear(p: int, q: int) {
    p == q || p + 16 <= q || q + 16 <= p
  }

  /** Two nodes of the ring. */
  lemma NodesApart(m: seq<int>, xs: seq<Block>, i: nat, j: nat)
    requires Inside(m, xs) && Spread(xs) && i <= |xs| + 1 && j <= |xs| + 1
    ensures 8 <= Node(xs, i) && Node(xs, i) + 8 <= |m| && Boundary(Node(xs, i))
    ensures Clear(Node(xs, i), Node(xs, j)) && (Node(xs, i) == Node(xs, j) <==> i == j || {i, j} == {0, |xs| + 1})
  {
    if 0 < i <= |xs| && 0 < j <= |xs| && i != j {
      SpreadAt(xs, i - 1, j - 1);
    }
  }

  // ---------- list_add ----------

  /** What `list_add` writes: the block comes right after the sentinel. */
  function Added(m: seq<int>, xs: seq<Block>, b: Block): seq<int>
    requires 24 <= |m| && 0 <= b.addr && b.addr + 8 <= |m| && 0 <= Node(xs, 1) < |m|
  {
    m[b.addr + 4 := Node(xs, 1)][b.addr := SENTINEL][Node(xs, 1) := b.addr][SENTINEL + 4 := b.addr]
  }

  lemma AddedCircle(m: seq<int>, xs: seq<Block>, b: Block)
    requires Circle(m, xs) && 24 <= b.addr && b.addr + 8 <= |m| && Boundary(b.addr) && forall i :: 0 <= i < |xs| ==> Away(xs[i], b)
    ensures 0 <= Node(xs, 1) < |m| && Circle(Added(m, xs, b), [b] + xs)
  {
    var ys := [b] + xs;
    NodesApart(m, xs, 1, 1);
    var m' := Added(m, xs, b);
    forall i | 0 <= i <= |ys| ensures Tied(m', ys, i) {
      if i > 0 {
        AddedTied(m, xs, b, i);
      }
    }
  }

  lemma AddedTied(m: seq<int>, xs: seq<Block>, b: Block, i: nat)
    requires Circle(m, xs) && 24 <= b.addr && b.addr + 8 <= |m| && Boundary(b.addr) && forall i :: 0 <= i < |xs| ==> Away(xs[i], b)
    requires 0 < i <= |xs| + 1 && 0 <= Node(xs, 1) < |m|
    ensures Tied(Added(m, xs, b), [b] + xs, i)
  {
    var ys := [b] + xs;
    assert Node(ys, i + 1) == Node(xs, i) && Node(ys, i) == if i == 1 then b.addr else Node(xs, i - 1);
    NodesApart(m, xs, i, i);
    assert i <= |xs| ==> Away(xs[i - 1], b);
    if i > 1 {
      assert Tied(m, xs, i - 1) && Away(xs[i - 2], b);
      NodesApart(m, xs, i - 1, 1);
      NodesApart(m, xs, i, 1);
    }
  }

  // ---------- list_remove ----------

  /** What `list_remove` writes: the neighbours of block `k` are linked to each other. */
  function Removed(m: seq<int>, xs: seq<Block>, k: nat): seq<int>
    requires k < |xs| && Inside(m, xs)
  {
    m[Node(xs, k) + 4 := Node(xs, k + 2)][Node(xs, k + 2) := Node(xs, k)]
  }

  lemma RemovedCircle(m: seq<int>, xs: seq<Block>, k: nat)
    requires Circle(m, xs) && k < |xs|
    ensures Circle(Removed(m, xs, k), Without(xs, k))
  {
    var m', ys := Removed(m, xs, k), Without(xs, k);
    forall i, j | 0 <= i < j < |ys| ensures Away(ys[i], ys[j]) {
      SpreadAt(xs, if i < k then i else i + 1, if j < k then j else j + 1);
    }
    forall i | 0 <= i <= |ys| ensures Tied(m', ys, i) {
      RemovedTied(m, xs, k, i);
    }
  }

  lemma RemovedTied(m: seq<int>, xs: seq<Block>, k: nat, i: nat)
    requires Circle(m, xs) && k < |xs| && i < |xs|
    ensures |Without(xs, k)| == |xs| - 1 && Tied(Removed(m, xs, k), Without(xs, k), i)
  {
    hide Circle, Tied, Removed;
    var ys, j := Without(xs, k), if i <= k then i else i + 1;
    WithoutNodes(xs, k, i);
    CircleParts(m, xs, j);
    CircleParts(m, xs, k);
    CircleParts(m, xs, if i < k then i + 1 else i + 2);
    NodesApart(m, xs, j, k);
    NodesApart(m, xs, k + 2, if i < k then i + 1 else i + 2);
    NodesApart(m, xs, j, k + 2);
    NodesApart(m, xs, k, if i < k then i + 1 else i + 2);
    RemovedWords(m, xs, k, i);
  }

  lemma CircleParts(m: seq<int>, xs: seq<Block>, i: nat)
    requires Circle(m, xs)
    ensures Inside(m, xs) && Spread(xs)
    ensures i <= |xs| ==> Tied(m, xs, i)
  {
  }

  lemma WithoutNodes(xs: seq<Block>, k: nat, i: nat)
    requires k < |xs| && i < |xs|
    ensures |Without(xs, k)| == |xs| - 1
    ensures var ys := Without(xs, k);
      && Node(ys, i) == Node(xs, if i <= k then i else i + 1)
      && Node(ys, i + 1) == Node(xs, if i < k then i + 1 else i + 2)
  {
  }

  lemma RemovedWords(m: seq<int>, xs: seq<Block>, k: nat, i: nat)
    requires k < |xs| && i < |xs| && Inside(m, xs) && |Without(xs, k)| == |xs| - 1
    requires var j, j' := if i <= k then i else i + 1, if i < k then i + 1 else i + 2;
      && Node(Without(xs, k), i) == Node(xs, j) && Node(Without(xs, k), i + 1) == Node(xs, j')
      && 8 <= Node(xs, j) && Node(xs, j) + 8 <= |m| && 8 <= Node(xs, j') && Node(xs, j') + 8 <= |m|
      && 8 <= Node(xs, k) && Node(xs, k) + 8 <= |m| && 8 <= Node(xs, k + 2) && Node(xs, k + 2) + 8 <= |m|
      && (i != k ==> Tied(m, xs, j))
      && Clear(Node(xs, j), Node(xs, k)) && Clear(Node(xs, j'), Node(xs, k + 2))
      && Clear(Node(xs, j), Node(xs, k + 2)) && Clear(Node(xs, j'), Node(xs, k))
      && (i == k <==> Node(xs, j) == Node(xs, k)) && (i == k <==> Node(xs, j') == Node(xs, k + 2))
    ensures Tied(Removed(m, xs, k), Without(xs, k), i)
  {
    hide Node, Without, Inside;
  }
}
