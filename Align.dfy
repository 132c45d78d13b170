/** The `ALIGN(v, a)` round-up macro of kernel/src/c/include/global.h,
    evaluated as the unsigned C expression `(v + (a - 1)) & ~(a - 1)` on
    integers `width` bits wide. Bitwise AND is defined on naturals bit by
    bit; wrap-around of `+`, `-` and `~` is written out modulo `2^width`. */
module Align {

  function Pow2(n: nat): (p: nat)
    ensures p >= 1
    decreases n
  {
    if n == 0 then 1 else 2 * Pow2(n - 1)
  }

  /** Bitwise AND of two naturals, least significant bit first. Neither
      operand's value is exceeded. */
  function BitAnd(x: nat, y: nat): (r: nat)
    ensures r <= x && r <= y
    decreases x
  {
    if x == 0 || y == 0 then 0
    else 2 * BitAnd(x / 2, y / 2) + (if x % 2 == 1 && y % 2 == 1 then 1 else 0)
  }

  /** `ALIGN(v, a)` on `width`-bit unsigned operands. */
  function AlignUp(v: nat, a: nat, width: nat): (r: nat)
    requires v < Pow2(width) && a < Pow2(width)
    ensures r < Pow2(width)
  {
    var w := Pow2(width);
    var aMinus1 := (a + w - 1) % w;
    BitAnd((v + aMinus1) % w, w - 1 - aMinus1)
  }

  lemma Pow2Add(m: nat, n: nat)
    ensures Pow2(m + n) == Pow2(m) * Pow2(n)
    decreases m
  {
    if m > 0 {
      Pow2Add(m - 1, n);
    }
  }

  lemma Pow2Monotone(k: nat, n: nat)
    requires k <= n
    ensures Pow2(k) <= Pow2(n)
    decreases n
  {
    if k < n {
      Pow2Monotone(k, n - 1);
    }
  }

  /** A power of two that fits in `width` bits has an exponent below `width`. */
  lemma Pow2Below(k: nat, width: nat)
    requires Pow2(k) < Pow2(width)
    ensures k < width
  {
    if k >= width {
      Pow2Monotone(width, k);
    }
  }

  lemma MulMonotone(a: nat, b: nat, d: nat)
    requires a <= b
    ensures a * d <= b * d
  {
    assert b * d == a * d + (b - a) * d;
  }

  /** Quotients are unique. */
  lemma DivUnique(x: nat, d: nat, q: nat, r: nat)
    requires d > 0 && r < d && x == q * d + r
    ensures x / d == q && x % d == r
  {
    var q' := x / d;
    var r' := x % d;
    assert x == q' * d + r';
    if q' < q {
      MulMonotone(q' + 1, q, d);
      assert false;
    } else if q' > q {
      MulMonotone(q + 1, q', d);
      assert false;
    }
  }

  /** Halving and then dividing by `p` is dividing by `2 * p`. */
  lemma HalfDiv(x: nat, p: nat)
    requires p > 0
    ensures x / 2 / p == x / (2 * p)
    ensures x / 2 / p * p * 2 == x / (2 * p) * (2 * p)
  {
    var q := x / 2 / p;
    var r := x / 2 % p;
    assert x / 2 == q * p + r;
    assert x == q * (2 * p) + (2 * r + x % 2);
    DivUnique(x, 2 * p, q, 2 * r + x % 2);
  }

  /** AND with a mask of `n` one-bits keeps a number below `2^n` whole. */
  lemma {:induction false} AndLowOnes(x: nat, n: nat)
    requires x < Pow2(n)
    ensures BitAnd(x, Pow2(n) - 1) == x
    decreases n
  {
    if n > 0 && x > 0 {
      assert (Pow2(n) - 1) / 2 == Pow2(n - 1) - 1;
      assert (Pow2(n) - 1) % 2 == 1;
      AndLowOnes(x / 2, n - 1);
    }
  }

  /** AND with the mask of bits `k .. n - 1` rounds a number below `2^n`
      down to a multiple of `2^k`. */
  lemma {:induction false} AndHighOnes(x: nat, k: nat, n: nat)
    requires k <= n && Pow2(k) <= Pow2(n) && x < Pow2(n)
    ensures BitAnd(x, Pow2(n) - Pow2(k)) == x / Pow2(k) * Pow2(k)
    decreases n
  {
    if k == 0 {
      AndLowOnes(x, n);
    } else if x == 0 {
    } else {
      var m := Pow2(n) - Pow2(k);
      Pow2Monotone(k - 1, n - 1);
      DivUnique(m, 2, Pow2(n - 1) - Pow2(k - 1), 0);
      assert m / 2 == Pow2(n - 1) - Pow2(k - 1) && m % 2 == 0;
      AndHighOnes(x / 2, k - 1, n - 1);
      HalfDiv(x, Pow2(k - 1));
      if m == 0 {
        assert x / Pow2(k) == 0;
      }
    }
  }

  /** For a power of two `a = 2^k` the macro is the multiple of `a` at or
      above `v`, computed on the wrapped sum. */
  lemma AlignPow2(v: nat, k: nat, width: nat)
    requires k <= width && v < Pow2(width)
    ensures Pow2(k) < Pow2(width) ==>
      AlignUp(v, Pow2(k), width) == (v + Pow2(k) - 1) % Pow2(width) / Pow2(k) * Pow2(k)
  {
    var w := Pow2(width);
    var a := Pow2(k);
    if a < w {
      DivUnique(a + w - 1, w, 1, a - 1);
      Pow2Monotone(k, width);
      AndHighOnes((v + a - 1) % w, k, width);
    }
  }

  /** `ALIGN(v, 2^k)` is a multiple of `2^k`. */
  lemma AlignIsMultiple(v: nat, k: nat, width: nat)
    requires Pow2(k) < Pow2(width) && v < Pow2(width)
    ensures AlignUp(v, Pow2(k), width) % Pow2(k) == 0
  {
    Pow2Below(k, width);
    AlignPow2(v, k, width);
    var a := Pow2(k);
    var x := (v + a - 1) % Pow2(width);
    DivUnique(x / a * a, a, x / a, 0);
  }

  /** Without wrap-around of `v + a - 1`, the macro rounds `v` up to the
      nearest multiple of `a`: `v <= ALIGN(v, a) < v + a`. */
  lemma AlignBounds(v: nat, k: nat, width: nat)
    requires Pow2(k) < Pow2(width) && v < Pow2(width)
    requires v + Pow2(k) - 1 < Pow2(width)
    ensures v <= AlignUp(v, Pow2(k), width) < v + Pow2(k)
  {
    Pow2Below(k, width);
    AlignPow2(v, k, width);
    var a := Pow2(k);
    var x := v + a - 1;
    DivUnique(x, Pow2(width), 0, x);
    RoundDownBounds(x, a);
  }

  /** Rounding down to a multiple of `a` loses less than `a`. */
  lemma RoundDownBounds(x: nat, a: nat)
    requires a > 0
    ensures x < x / a * a + a && x / a * a <= x
  {
    var q := x / a;
    var r := x % a;
    assert x == q * a + r;
  }

  /** When `v + a - 1` wraps around, the macro yields 0. */
  lemma AlignWraps(v: nat, k: nat, width: nat)
    requires Pow2(k) < Pow2(width) && v < Pow2(width)
    requires v + Pow2(k) - 1 >= Pow2(width)
    ensures AlignUp(v, Pow2(k), width) == 0
  {
    Pow2Below(k, width);
    AlignPow2(v, k, width);
    var a := Pow2(k);
    var w := Pow2(width);
    DivUnique(v + a - 1, w, 1, v + a - 1 - w);
    DivUnique(v + a - 1 - w, a, 0, v + a - 1 - w);
  }

  /** A value that is already a multiple of `a` is left as it is. */
  lemma AlignAligned(v: nat, k: nat, width: nat)
    requires Pow2(k) < Pow2(width) && v < Pow2(width)
    requires v % Pow2(k) == 0
    ensures AlignUp(v, Pow2(k), width) == v
  {
    Pow2Below(k, width);
    var a := Pow2(k);
    var w := Pow2(width);
    Pow2Add(k, width - k);
    AlignedArith(v, a, Pow2(width - k));
    AlignPow2(v, k, width);
    DivUnique(v + a - 1, w, 0, v + a - 1);
  }

  /** Adding `a - 1` to a multiple of `a` below `a * p` neither leaves
      `a * p` nor reaches the next multiple. */
  lemma AlignedArith(v: nat, a: nat, p: nat)
    requires a > 0 && v % a == 0 && v < a * p
    ensures v + a - 1 < a * p
    ensures (v + a - 1) / a * a == v
  {
    var q := v / a;
    RoundDownBounds(v, a);
    assert v == q * a;
    NextMultipleFits(q, a, p);
    DivUnique(v + a - 1, a, q, a - 1);
  }

  /** A multiple of `a` below `p * a` leaves room for `a` more. */
  lemma NextMultipleFits(q: nat, a: nat, p: nat)
    requires q * a < a * p
    ensures q * a + a <= a * p
  {
    if q >= p {
      MulMonotone(p, q, a);
    }
    MulMonotone(q + 1, p, a);
  }

  /** Aligning twice is aligning once. */
  lemma AlignIdempotent(v: nat, k: nat, width: nat)
    requires Pow2(k) < Pow2(width) && v < Pow2(width)
    ensures AlignUp(AlignUp(v, Pow2(k), width), Pow2(k), width) == AlignUp(v, Pow2(k), width)
  {
    AlignIsMultiple(v, k, width);
    AlignAligned(AlignUp(v, Pow2(k), width), k, width);
  }
}
