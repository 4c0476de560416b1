/** Padmé size quantisation: how many bytes an object of `l` bytes is padded to before sealing. */
module Padme {
  import opened Base

  function Pow2(n: nat): (p: nat)
    ensures p > 0
  {
    if n == 0 then 1 else 2 * Pow2(n - 1)
  }

  function FloorLog2(n: nat): nat
    requires n > 0
  {
    if n == 1 then 0 else 1 + FloorLog2(n / 2)
  }

  lemma {:induction false} FloorLog2Bounds(n: nat)
    requires n > 0
    ensures Pow2(FloorLog2(n)) <= n < Pow2(FloorLog2(n) + 1)
    decreases n
  {
    if n > 1 {
      FloorLog2Bounds(n / 2);
    }
  }

  /** The largest length the 64-bit computation pads correctly: beyond it the addition saturates. */
  const PADME_LIMIT: nat := U64_LIMIT - 0x200_0000_0000_0000

  /** Rounds up to a multiple of 2^(e-s); the sum saturates at the largest 64-bit value. */
  function PadmeLen(l: nat): nat {
    if l < 2 then l
    else
      var e := FloorLog2(l);
      var s := FloorLog2Of(e) + 1;
      if e <= s then l
      else
        var unit := Pow2(e - s);
        ClearLow(Min(l + unit - 1, U64_LIMIT - 1), unit)
  }

  /** `n & !(unit - 1)` for a power of two `unit`. */
  function ClearLow(n: nat, unit: nat): nat
    requires unit > 0
  {
    n - n % unit
  }

  lemma {:induction false} ClearLowBounds(n: nat, unit: nat)
    requires unit > 0
    ensures ClearLow(n, unit) <= n < ClearLow(n, unit) + unit
  {
  }

  function FloorLog2Of(e: nat): nat {
    if e == 0 then 0 else FloorLog2(e)
  }

  lemma {:induction false} Pow2Adds(a: nat, b: nat)
    ensures Pow2(a + b) == Pow2(a) * Pow2(b)
    decreases a
  {
    if a > 0 {
      Pow2Adds(a - 1, b);
      assert Pow2(a + b) == 2 * Pow2(a - 1 + b);
      assert Pow2(a) * Pow2(b) == 2 * (Pow2(a - 1) * Pow2(b));
    }
  }

  lemma {:induction false} Pow2Grows(a: nat, b: nat)
    requires a <= b
    ensures Pow2(a) <= Pow2(b)
    decreases b
  {
    if a < b {
      Pow2Grows(a, b - 1);
    }
  }

  lemma {:induction false} BigPowers()
    ensures Pow2(57) == 0x200_0000_0000_0000
    ensures Pow2(62) == 0x4000_0000_0000_0000
    ensures Pow2(63) == 0x8000_0000_0000_0000
    ensures Pow2(64) == U64_LIMIT
  {
    Pow2Adds(8, 8);
    assert Pow2(16) == 0x1_0000;
    Pow2Adds(16, 16);
    assert Pow2(32) == 0x1_0000_0000;
    Pow2Adds(32, 16);
    assert Pow2(48) == 0x1_0000_0000_0000;
    Pow2Adds(48, 9);
    Pow2Adds(57, 5);
    assert Pow2(63) == 2 * Pow2(62) && Pow2(64) == 2 * Pow2(63);
  }

  /** For 64-bit lengths: the exponent, and that only the top exponent can saturate. */
  lemma {:induction false} Exponent(l: nat)
    requires 2 <= l < U64_LIMIT
    ensures var e := FloorLog2(l);
            && 1 <= e <= 63
            && (e <= 62 ==> l < 0x8000_0000_0000_0000)
            && (e == 63 ==> FloorLog2Of(e) + 1 == 6)
  {
    var e := FloorLog2(l);
    FloorLog2Bounds(l);
    BigPowers();
    if e >= 64 {
      Pow2Grows(64, e);
    }
    assert Pow2(1) == 2;
    if e <= 62 {
      Pow2Grows(e + 1, 63);
    }
    assert FloorLog2(63) == 5;
  }

  /** The rounding unit of `l`; the addition fits 64 bits unless `l` is in the last 2^57 lengths. */
  lemma {:induction false} UnitFits(l: nat)
    requires 2 <= l < U64_LIMIT
    requires FloorLog2(l) > FloorLog2Of(FloorLog2(l)) + 1
    ensures var e := FloorLog2(l);
            var unit := Pow2(e - FloorLog2Of(e) - 1);
            && (l <= PADME_LIMIT ==> l + unit - 1 < U64_LIMIT)
            && (l > PADME_LIMIT ==> unit == 0x200_0000_0000_0000)
  {
    Exponent(l);
    BigPowers();
    var e := FloorLog2(l);
    if e <= 62 {
      Pow2Grows(e - FloorLog2Of(e) - 1, 62);
    } else {
      assert Pow2(e - FloorLog2Of(e) - 1) == Pow2(57);
    }
  }

  /**
   * Padding never shrinks an object, except in the last 2^57 lengths of the 64-bit range, where the
   * saturating addition makes it round down.
   */
  lemma {:induction false} PadmeCoversIff(l: nat)
    requires l < U64_LIMIT
    ensures l <= PadmeLen(l) <==> l <= PADME_LIMIT
  {
    if l >= 2 {
      Exponent(l);
    }
    if l >= 2 && FloorLog2(l) > FloorLog2Of(FloorLog2(l)) + 1 {
      UnitFits(l);
      var e := FloorLog2(l);
      var unit := Pow2(e - FloorLog2Of(e) - 1);
      ClearLowBounds(l + unit - 1, unit);
      assert (U64_LIMIT - 1) % 0x200_0000_0000_0000 == 0x1ff_ffff_ffff_ffff;
    }
  }

  /** The longest 64-bit length is an input that padding shrinks. */
  lemma {:induction false} LongestIsPaddedDown()
    ensures PadmeLen(U64_LIMIT - 1) < U64_LIMIT - 1
  {
    PadmeCoversIff(U64_LIMIT - 1);
  }

  lemma {:induction false} PadmeFits(l: nat)
    requires l < U64_LIMIT
    ensures PadmeLen(l) < U64_LIMIT
  {
  }

  /** Below the limit nothing saturates. */
  lemma {:induction false} RoundsUp(l: nat)
    requires 2 <= l <= PADME_LIMIT && FloorLog2(l) > FloorLog2Of(FloorLog2(l)) + 1
    ensures var unit := Pow2(FloorLog2(l) - FloorLog2Of(FloorLog2(l)) - 1);
            PadmeLen(l) == ClearLow(l + unit - 1, unit)
  {
    UnitFits(l);
  }

  lemma {:induction false} FloorLog2Unique(n: nat, e: nat)
    requires Pow2(e) <= n < Pow2(e + 1)
    ensures n > 0 && FloorLog2(n) == e
  {
    FloorLog2Bounds(n);
    var d := FloorLog2(n);
    if d < e {
      Pow2Grows(d + 1, e);
    } else if e < d {
      Pow2Grows(e + 1, d);
    }
  }

  lemma {:induction false} ClearLowIsMultiple(n: nat, unit: nat)
    requires unit > 0
    ensures ClearLow(n, unit) == n / unit * unit
  {
  }

  /**
   * What padding means below the limit: for the `e` and `s` with 2^e <= l < 2^(e+1) and 2^(s-1) <= e < 2^s,
   * the least multiple of 2^(e-s) that is not less than `l`, and `l` itself where e <= s.
   */
  lemma {:induction false} PadmeIsLeastMultiple(l: nat, e: nat, s: nat) returns (q: nat)
    requires 2 <= l <= PADME_LIMIT && Pow2(e) <= l < Pow2(e + 1)
    requires s > 0 && Pow2(s - 1) <= e < Pow2(s)
    ensures e <= s ==> PadmeLen(l) == l
    ensures e > s ==> PadmeLen(l) == q * Pow2(e - s) && l <= PadmeLen(l) < l + Pow2(e - s)
  {
    FloorLog2Unique(l, e);
    FloorLog2Unique(e, s - 1);
    q := 0;
    if e > s {
      RoundsUp(l);
      var unit := Pow2(e - s);
      ClearLowBounds(l + unit - 1, unit);
      ClearLowIsMultiple(l + unit - 1, unit);
      q := (l + unit - 1) / unit;
    }
  }

  lemma {:induction false} UnitOf(l: nat, e: nat, s: nat)
    requires l >= 2 && e == FloorLog2(l) && s == FloorLog2Of(e) + 1 && e > s
    ensures Pow2(e - s) * Pow2(s) <= l
  {
    FloorLog2Bounds(l);
    Pow2Adds(e - s, s);
  }

  /** Padding costs at most 12 percent. */
  lemma {:induction false} PadmeOverhead(l: nat)
    requires l <= PADME_LIMIT
    ensures 100 * (PadmeLen(l) - l) <= 12 * l
  {
    if l >= 2 && FloorLog2(l) > FloorLog2Of(FloorLog2(l)) + 1 {
      var e := FloorLog2(l);
      var s := FloorLog2Of(e) + 1;
      UnitOf(l, e, s);
      SmallExponents(e, s);
      RoundsUp(l);
      OverheadOfUnit(l, e, s, Pow2(e - s));
    } else {
      assert PadmeLen(l) == l;
    }
  }

  lemma {:induction false} OverheadOfUnit(l: nat, e: nat, s: nat, unit: nat)
    requires s >= 2 && (s == 2 ==> e == 3) && (s == 3 ==> e <= 7) && e > s
    requires unit == Pow2(e - s) && unit * Pow2(s) <= l
    ensures 100 * (ClearLow(l + unit - 1, unit) - l) <= 12 * l
  {
    if s == 2 {
      assert unit == Pow2(1) == 2 && Pow2(2) == 4;
      assert unit * Pow2(s) == 2 * Pow2(s) == 8;
      OverheadOfTwo(l);
    } else {
      ClearLowBounds(l + unit - 1, unit);
      UnitIsSmall(l, e, s, unit);
    }
  }

  /** Rounding up to an even length leaves the shortest length, 8, alone. */
  lemma {:induction false} OverheadOfTwo(l: nat)
    requires l >= 8
    ensures 100 * (ClearLow(l + 1, 2) - l) <= 12 * l
  {
  }

  lemma {:induction false} UnitIsSmall(l: nat, e: nat, s: nat, unit: nat)
    requires s >= 3 && (s == 3 ==> e <= 7) && e > s
    requires unit == Pow2(e - s) && unit * Pow2(s) <= l
    ensures 100 * (unit - 1) <= 12 * l
  {
    if s == 3 {
      Pow2Grows(e - s, 4);
      assert Pow2(4) == 16 && Pow2(3) == 8;
      assert unit * Pow2(s) == unit * 8;
    } else {
      Pow2Grows(4, s);
      assert Pow2(4) == 16;
      assert unit * 16 <= unit * Pow2(s);
    }
  }

  lemma {:induction false} SmallExponents(e: nat, s: nat)
    requires e >= 1 && s == FloorLog2Of(e) + 1 && e > s
    ensures s >= 2
    ensures s == 2 ==> e == 3
    ensures s == 3 ==> e <= 7
  {
    FloorLog2Bounds(e);
    assert Pow2(1) == 2 && Pow2(2) == 4 && Pow2(3) == 8;
    if s <= 3 {
      Pow2Grows(s, 3);
    }
  }
}
