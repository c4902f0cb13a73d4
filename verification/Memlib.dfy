/** The simulated memory system of `memlib.c`.
    An address is a byte offset from the start of the heap. Words lie at multiples of four:
    the word at byte address `a` is `cells[a]`. In a payload, the byte at `a` is `cells[a]`. */
module Memlib {

  const FAILED := -1
  const INT_MAX := 0x7FFF_FFFF

  /** Words do not straddle each other: they start at multiples of four. */
  predicate Aligned(a: int) {
    a % 4 == 0
  }

  /** The words on both sides of a block boundary. */
  predicate Boundary(a: int) {
    Aligned(a - 8) && Aligned(a - 4) && Aligned(a) && Aligned(a + 4) && Aligned(a + 8)
  }

  lemma Fourfold(a: int, q: int)
    requires a == 4 * q
    ensures Aligned(a)
  {
  }

  /** Multiples of eight are block boundaries. */
  lemma Eightfold(a: int, q: int)
    requires a == 8 * q
    ensures a % 8 == 0 && Boundary(a)
  {
    hide Aligned;
    Fourfold(a - 8, 2 * q - 2);
    Fourfold(a - 4, 2 * q - 1);
    Fourfold(a, 2 * q);
    Fourfold(a + 4, 2 * q + 1);
    Fourfold(a + 8, 2 * q + 2);
  }

  lemma MultipleSum(a: int, n: int)
    requires a % 8 == 0 && n % 8 == 0
    ensures (a + n) % 8 == 0 && Boundary(a + n)
  {
    hide Boundary;
    var p, q := a / 8, n / 8;
    assert a == 8 * p && n == 8 * q;
    Eightfold(a + n, p + q);
  }

  class Memory {
    const cells: array<int>
    var brk: int

    ghost predicate Valid()
      reads this
    {
      0 <= brk <= cells.Length <= INT_MAX
    }

    /** The contents of the heap, from its first byte up to the break. */
    ghost function Mem(): (m: seq<int>)
      requires Valid()
      reads this, cells
      ensures |m| == brk
    {
      cells[..brk]
    }

    /** `mem_init`: an empty heap that may grow to `maxHeap` bytes. */
    constructor (maxHeap: nat)
      requires maxHeap <= INT_MAX
      ensures Valid() && fresh(cells)
      ensures brk == 0 && cells.Length == maxHeap
    {
      cells := new int[maxHeap];
      brk := 0;
    }

    method ResetBrk()
      requires Valid()
      modifies this`brk
      ensures Valid() && brk == 0
    {
      brk := 0;
    }

    /** `mem_sbrk`: grow the heap, or fail and change nothing. An increment that does not fit into an `int` would become
        negative; it fails here as well, because no heap is that large. */
    method Sbrk(incr: int) returns (p: int)
      requires Valid()
      modifies this`brk
      ensures Valid()
      ensures p == FAILED <==> incr < 0 || old(brk) + incr > cells.Length
      ensures p == FAILED ==> brk == old(brk)
      ensures p != FAILED ==> p == old(brk) && brk == old(brk) + incr && Mem()[..p] == old(Mem())
    {
      if incr < 0 || brk + incr > cells.Length {
        return FAILED;
      }
      p := brk;
      brk := brk + incr;
    }

    function HeapLo(): int {
      0
    }

    function HeapHi(): int
      reads this
    {
      brk - 1
    }

    /** Read a word; it must be aligned and lie inside the heap. */
    function Get(a: int): (v: int)
      requires Valid() && 0 <= a && Aligned(a) && a + 4 <= brk
      reads this, cells
      ensures v == Mem()[a]
    {
      cells[a]
    }

    /** Write a word; it must be aligned and lie inside the heap. */
    method Put(a: int, v: int)
      requires Valid() && 0 <= a && Aligned(a) && a + 4 <= brk
      modifies cells
      ensures Mem() == old(Mem())[a := v]
    {
      cells[a] := v;
    }

    /** `memcpy` of `n` bytes between disjoint stretches of the heap. */
    method Copy(dst: int, src: int, n: nat)
      requires Valid() && 0 <= dst && dst + n <= brk && 0 <= src && src + n <= brk && (dst + n <= src || src + n <= dst)
      modifies cells
      ensures forall x :: dst <= x < dst + n ==> Mem()[x] == old(Mem())[src + (x - dst)]
      ensures forall x :: 0 <= x < brk && (x < dst || dst + n <= x) ==> Mem()[x] == old(Mem())[x]
    {
      for i := 0 to n
        invariant forall x :: dst <= x < dst + i ==> cells[x] == old(cells[src + (x - dst)])
        invariant forall x :: 0 <= x < brk && (x < dst || dst + i <= x) ==> cells[x] == old(cells[x])
      {
        cells[dst + i] := cells[src + i];
      }
    }
  }
}
