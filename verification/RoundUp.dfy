/** `round_up_power_2` of `mm_seg_ref_97.c`: copying the top bit downwards finds the next power of two. */
module RoundUp {
  import opened Common
  import opened Tags
  import opened SegLists

  /** `v >> s` */
  function Shift(v: nat, s: nat): nat {
    if s == 0 then v else Shift(v / 2, s - 1)
  }

  /** `a | b` */
  function Or(a: nat, b: nat): nat {
    if a == 0 && b == 0 then 0 else 2 * Or(a / 2, b / 2) + (if a % 2 == 1 || b % 2 == 1 then 1 else 0)
  }

  /** The top `s` of `len` bits are set; all of them if `s` is larger. */
  ghost predicate Filled(v: nat, len: nat, s: nat) {
    Pow2(len) <= v + Pow2(if s <= len then len - s else 0) && v < Pow2(len)
  }

  lemma {:induction false} ShiftHalf(v: nat, s: nat)
    ensures Shift(v, s) / 2 == Shift(v / 2, s)
  {
    if s > 0 {
      ShiftHalf(v / 2, s - 1);
    }
  }

  /** Shifting away all but ones leaves ones. */
  lemma {:induction false} ShiftOnes(v: nat, len: nat, s: nat)
    requires s <= len && Pow2(len) <= v + Pow2(s) && v < Pow2(len)
    ensures Shift(v, s) == Pow2(len - s) - 1
  {
    if s > 0 {
      ShiftOnes(v / 2, len - 1, s - 1);
    }
  }

  /** One line of the function doubles the number of set bits at the top. */
  lemma {:induction false} SmearStep(v: nat, len: nat, s: nat)
    requires Filled(v, len, s) && s > 0
    ensures Filled(Or(v, Shift(v, s)), len, 2 * s)
    decreases len
  {
    if len == 0 {
      ShiftZero(s);
    } else {
      ShiftHalf(v, s);
      FilledHalf(v, len, s);
      SmearStep(v / 2, len - 1, s);
      if len <= 2 * s {
        LastBit(v, len, s);
      }
      OrHalf(v, Shift(v, s));
      var w, w' := Or(v, Shift(v, s)), Or(v / 2, Shift(v / 2, s));
      if 2 * s < len {
        assert Pow2(len - 2 * s) == 2 * Pow2(len - 1 - 2 * s);
      }
    }
  }

  lemma {:induction false} ShiftZero(s: nat)
    ensures Shift(0, s) == 0
  {
    if s > 0 {
      ShiftZero(s - 1);
    }
  }

  lemma OrHalf(a: nat, b: nat)
    ensures Or(a, b) == 2 * Or(a / 2, b / 2) + (if a % 2 == 1 || b % 2 == 1 then 1 else 0)
  {
  }

  lemma FilledHalf(v: nat, len: nat, s: nat)
    requires Filled(v, len, s) && s > 0 && len > 0
    ensures Filled(v / 2, len - 1, s)
  {
    if s < len {
      assert Pow2(len - s) == 2 * Pow2(len - 1 - s);
    }
  }

  lemma LastBit(v: nat, len: nat, s: nat)
    requires Filled(v, len, s) && s > 0 && 0 < len <= 2 * s
    ensures v % 2 == 1 || Shift(v, s) % 2 == 1
  {
    if s < len {
      Pow2Monotone(len - s, s);
      ShiftOnes(v, len, s);
      OnesOdd(Shift(v, s), len - s);
    } else {
      OnesOdd(v, len);
    }
  }

  lemma OnesOdd(v: nat, len: nat)
    requires len > 0 && v == Pow2(len) - 1
    ensures v % 2 == 1
  {
    OddIs(v, Pow2(len - 1) - 1);
  }

  lemma OddIs(v: int, q: int)
    requires v == 2 * q + 1
    ensures v % 2 == 1
  {
  }

  /** `round_up_power_2` where the result fits into an `int`; zero stays zero because the lines keep all-ones as it is. */
  method RoundUpPower2(x: int) returns (r: int)
    requires x <= 0x4000_0000
    ensures r == if x <= 0 then 0 else Pow2(CeilLog(x))
  {
    if x < 0 {
      return 0;
    }
    if x == 0 {
      return 0;
    }
    ghost var len := CeilLog(x);
    ClassFits(Ceil, x);
    var v: nat := x - 1;
    assert Filled(v, len, 1);
    SmearStep(v, len, 1);
    v := Or(v, Shift(v, 1));
    SmearStep(v, len, 2);
    v := Or(v, Shift(v, 2));
    SmearStep(v, len, 4);
    v := Or(v, Shift(v, 4));
    SmearStep(v, len, 8);
    v := Or(v, Shift(v, 8));
    SmearStep(v, len, 16);
    v := Or(v, Shift(v, 16));
    return v + 1;
  }
}
