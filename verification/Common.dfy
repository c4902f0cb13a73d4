/** Arithmetic and sequences that several components share. */
module Common {
  const TWO32 := 0x1_0000_0000

  /** A word without its three flag bits: `w & ~0x7`. */
  function Masked(w: int): int {
    w - w % 8
  }

  /** `need` is a multiple of eight with room for `size` bytes and eight more, at least `least`, and no larger than that takes. */
  predicate LeastSize(need: int, size: int, least: int) {
    need % 8 == 0 && least <= need && size + 8 <= need && (need == least || need < size + 16)
  }

  lemma LeastOfAll(need: int, size: int, least: int, n: int)
    requires LeastSize(need, size, least) && n % 8 == 0 && n >= least && n >= size + 8
    ensures need <= n
  {
    var p, q := need / 8, n / 8;
    assert need == 8 * p && n == 8 * q;
  }

  function Pow2(n: nat): nat {
    if n == 0 then 1 else 2 * Pow2(n - 1)
  }

  lemma {:induction false} Pow2Monotone(a: nat, b: nat)
    requires a <= b
    ensures Pow2(a) <= Pow2(b)
  {
    if a < b {
      Pow2Monotone(a, b - 1);
    }
  }

  function Without<T>(xs: seq<T>, k: nat): seq<T>
    requires k < |xs|
  {
    xs[..k] + xs[k + 1..]
  }

  /** Multiples of eight and their low bits. */
  lemma Eights(q: int)
    ensures (8 * q) % 8 == 0 && (8 * q + 1) % 8 == 1 && (8 * q) % 2 == 0 && (8 * q + 1) % 2 == 1
    ensures 8 * q / 2 % 2 == 0 && (8 * q + 1) / 2 % 2 == 0
  {
    Fours(q);
    assert 8 * q == 2 * (4 * q) && 8 * q / 2 == 4 * q && (8 * q + 1) / 2 == 4 * q;
  }

  lemma Fours(q: int)
    ensures (8 * q) % 8 == 0 && (8 * q + 1) % 8 == 1 && (4 * q) % 2 == 0
  {
    assert 4 * q == 2 * (2 * q);
  }

  /** A size word without its free bit. */
  lemma MaskedTag(size: int)
    requires size % 8 == 0
    ensures Masked(size + 1) == size
  {
    var q := size / 8;
    Eights(q);
    assert size == 8 * q;
  }
}
