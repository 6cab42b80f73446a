/**
 The load factor as the program computes it, in single precision. Table sizes are powers of two, so the
 division only scales; what is rounded is the number of entries. `ExpandTestIs` and `ShrinkTestIs` give the
 exact meaning of the comparisons with `1.0f` and `0.1f` in integers, for all numbers of entries and all
 sizes. `ExpandExactWhen` and `ShrinkExactWhen` say for which sizes rounding never decides.
 */
module LoadFactor {
  import opened Pow2

  /** Single precision has 24 significant bits. */
  const MANTISSA: nat := 0x100_0000

  // ---- rounding -------------------------------------------------------------------------

  /** The multiple of `u` nearest to `n`, the one with an even factor if two are equally near. */
  function Nearest(n: nat, u: nat): nat
    requires u > 0
  {
    var q, r := n / u, n % u;
    if 2 * r < u || (2 * r == u && q % 2 == 0) then q * u else (q + 1) * u
  }

  /** The distance of neighbouring single-precision numbers around `n`, at least `u`. */
  function Spacing(n: nat, u: nat): (r: nat)
    requires u > 0
    ensures r > 0
    decreases if n > u then n - u else 0
  {
    if n < MANTISSA * u then u else Spacing(n, 2 * u)
  }

  /** `static_cast<float>`. */
  function Single(n: int): (r: int)
    ensures n < MANTISSA ==> r == n
  {
    if n < MANTISSA then n else Nearest(n, Spacing(n, 1))
  }

  /** `load_factor() > 1.0f`. */
  predicate FloatExpands(used: int, size: nat) {
    Single(used) > size
  }

  /** `load_factor() < 0.1f`; `0.1f` is 13421773 / 2^27. */
  predicate FloatShrinks(used: int, size: nat) {
    Single(used) * 0x800_0000 < 13421773 * size
  }

  lemma {:induction false} SpacingOk(n: nat, u: nat)
    requires IsPow2(u) && (u == 1 || n >= 0x80_0000 * u)
    ensures var s := Spacing(n, u); IsPow2(s) && n < MANTISSA * s && (s == 1 || n >= 0x80_0000 * s)
    decreases if n > u then n - u else 0
  {
    if n >= MANTISSA * u {
      assert IsPow2(2 * u) by { assert (2 * u) / 2 == u; }
      SpacingOk(n, 2 * u);
    }
  }

  lemma {:induction false} MulLe(a: nat, b: nat, u: nat)
    requires a <= b
    ensures a * u <= b * u
  {
  }

  lemma {:induction false} QuotientBounds(n: nat, u: nat, m: nat)
    requires u > 0
    ensures n / u * u <= n < (n / u + 1) * u && n % u == n - n / u * u
    ensures if n < m * u then n / u + 1 <= m else n / u >= m
  {
    var q := n / u;
    assert n == q * u + n % u && (q + 1) * u == q * u + u;
    if q < m { MulLe(q + 1, m, u); } else { MulLe(m, q, u); }
  }

  lemma {:induction false} NearestIs(n: nat, u: nat)
    requires u > 0
    ensures Nearest(n, u) == n / u * u || Nearest(n, u) == (n / u + 1) * u
  {
  }

  /** Rounding does not leave the binade. */
  lemma {:induction false} NearestBounds(n: nat, u: nat, lo: nat, hi: nat)
    requires u > 0 && lo * u <= n < hi * u
    ensures lo * u <= Nearest(n, u) <= hi * u
  {
    hide Nearest;
    var q := n / u;
    NearestIs(n, u);
    QuotientBounds(n, u, lo);
    QuotientBounds(n, u, hi);
    MulLe(lo, q, u);
    MulLe(q, q + 1, u);
    MulLe(q + 1, hi, u);
  }

  /** From 2^24 on, rounding keeps a number between the powers of two around it. */
  lemma {:induction false} SingleLarge(n: nat) returns (u: nat)
    requires n >= MANTISSA
    ensures IsPow2(u) && u > 1 && 0x80_0000 * u <= n < MANTISSA * u
    ensures Single(n) == Nearest(n, u) && 0x80_0000 * u <= Single(n) <= MANTISSA * u
  {
    hide IsPow2, Nearest, Spacing;
    u := Spacing(n, 1);
    OneIsPow2();
    SpacingOk(n, 1);
    NearestBounds(n, u, 0x80_0000, MANTISSA);
  }

  lemma {:induction false} Doubling(n: nat)
    requires IsPow2(n)
    ensures IsPow2(2 * n)
  {
    assert (2 * n) / 2 == n;
  }

  lemma {:induction false} BinadePow2(u: nat)
    requires IsPow2(u)
    ensures IsPow2(0x80_0000 * u)
  {
    hide IsPow2;
    Doubling(u); Doubling(2 * u); Doubling(4 * u); Doubling(8 * u); Doubling(16 * u); Doubling(32 * u);
    Doubling(64 * u); Doubling(128 * u); Doubling(256 * u); Doubling(512 * u); Doubling(1024 * u);
    Doubling(2048 * u); Doubling(4096 * u); Doubling(8192 * u); Doubling(16384 * u); Doubling(32768 * u);
    Doubling(65536 * u); Doubling(131072 * u); Doubling(262144 * u); Doubling(524288 * u);
    Doubling(1048576 * u); Doubling(2097152 * u); Doubling(4194304 * u);
  }

  // ---- the expansion test ---------------------------------------------------------------

  /** Just above a power of two: the first half of the first gap is rounded down. */
  lemma {:induction false} FirstGap(n: nat, u: nat)
    requires u > 1 && u % 2 == 0 && 0x80_0000 * u <= n
    ensures Nearest(n, u) > 0x80_0000 * u <==> n > 0x80_0000 * u + u / 2
  {
    var q, p := n / u, 0x80_0000;
    QuotientBounds(n, u, p);
    assert (p + 1) * u == p * u + u;
    if q > p {
      MulLe(p + 1, q, u);
      MulLe(q, q + 1, u);
    } else {
      assert q == p;
    }
  }

  /** For all sizes, with integer division: below 2^24 buckets the test is exact, from there on the table must
      exceed its size by more than half of the spacing of single-precision numbers. */
  lemma {:induction false} ExpandTestIs(used: nat, size: nat)
    requires IsPow2(size)
    ensures FloatExpands(used, size) <==> used > size + size / MANTISSA
  {
    hide IsPow2, Nearest, Spacing, Single;
    if used >= MANTISSA {
      var u := SingleLarge(used);
      var p := 0x80_0000 * u;
      EvenPow2(u);
      BinadePow2(u);
      if size < p {
        DoubleGap(size, p);
      } else if size == p {
        FirstGap(used, u);
        assert p / MANTISSA == u / 2;
      } else {
        DoubleGap(p, size);
      }
    }
  }

  lemma {:induction false} OneIsPow2()
    ensures IsPow2(1)
  {
  }

  lemma {:induction false} EvenPow2(n: nat)
    requires IsPow2(n) && n > 1
    ensures n % 2 == 0
  {
  }

  /** Rounding never decides about expansion exactly below 2^24 buckets. */
  lemma {:induction false} ExpandExactWhen(size: nat)
    requires IsPow2(size)
    ensures (forall used: nat :: FloatExpands(used, size) <==> used > size) <==> size < MANTISSA
  {
    hide IsPow2, FloatExpands;
    if size < MANTISSA {
      forall used: nat ensures FloatExpands(used, size) <==> used > size { ExpandTestIs(used, size); }
    } else {
      ExpandTestIs(size + 1, size);
      assert !FloatExpands(size + 1, size);
    }
  }

  /** One entry more than 2^24 buckets is a load above 1, but not in single precision. */
  lemma {:induction false} ExpandTestRounds()
    ensures IsPow2(MANTISSA) && !FloatExpands(MANTISSA + 1, MANTISSA)
  {
    OneIsPow2();
    BinadePow2(1);
    Doubling(0x80_0000);
    ExpandTestIs(MANTISSA + 1, MANTISSA);
  }

  // ---- the shrinking test ---------------------------------------------------------------

  lemma {:induction false} Pow2NotMultipleOf5(n: nat)
    requires IsPow2(n)
    ensures n % 5 != 0
  {
    if n > 1 {
      var m := n / 2;
      Pow2NotMultipleOf5(m);
      assert m == 5 * (m / 5) + m % 5 && n == 2 * m;
      assert n == 5 * (2 * (m / 5)) + 2 * (m % 5);
    }
  }

  lemma {:induction false} NotATenth(used: nat, size: nat)
    requires size % 5 != 0
    ensures used * 10 != size
  {
    assert used * 10 == 5 * (2 * used);
  }

  lemma {:induction false} ShrinkSmall(used: nat, size: nat)
    requires IsPow2(size) && size < 0x1000_0000
    ensures FloatShrinks(used, size) <==> used * 10 < size
  {
    hide IsPow2, Single;
    assert used * 10 != size && (size > 1 ==> size % 2 == 0) && size <= 0x800_0000 by {
      Pow2NotMultipleOf5(size);
      NotATenth(used, size);
      if size > 1 { EvenPow2(size); }
      if size > 0x800_0000 {
        Power27();
        DoubleGap(0x800_0000, size);
      }
    }
    if used < MANTISSA {
      if used * 10 > size && size > 1 { assert used * 10 >= size + 2; }
    } else {
      var u := SingleLarge(used);
    }
  }

  lemma {:induction false} Power27()
    ensures IsPow2(0x800_0000)
  {
    hide IsPow2;
    OneIsPow2();
    Doubling(1); Doubling(2); Doubling(4); Doubling(8);
    BinadePow2(16);
  }

  /** A large power of two is a multiple of 2^27. */
  lemma {:induction false} Multiple27(size: nat) returns (w: nat)
    requires IsPow2(size) && size >= 0x800_0000
    ensures IsPow2(w) && size == 0x800_0000 * w
  {
    if size == 0x800_0000 {
      w := 1;
    } else {
      Power27();
      DoubleGap(0x800_0000, size);
      w := Multiple27(size / 2);
      Doubling(w);
      w := 2 * w;
    }
  }

  /** Around one tenth: the half gap below 13421773 belongs to it, and so does its middle. */
  lemma {:induction false} TenthGap(n: nat, u: nat)
    requires u > 0
    ensures Nearest(n, u) < 13421773 * u <==> 2 * n <= 26843545 * u
  {
    var q, m := n / u, 13421772;
    QuotientBounds(n, u, m);
    QuotientBounds(n, u, m + 1);
    assert (m + 1) * u == m * u + u;
    if q < m {
      MulLe(q + 1, m, u);
      MulLe(q, q + 1, u);
    } else if q > m {
      MulLe(m + 1, q, u);
      MulLe(q, q + 1, u);
    } else {
      assert q * u == m * u && (q + 1) * u == m * u + u;
    }
  }

  lemma {:induction false} ShrinkLarge(used: nat, w: nat)
    requires IsPow2(w) && w > 1
    ensures FloatShrinks(used, 0x800_0000 * w) <==> 2 * used <= 26843545 * w
  {
    hide IsPow2, Nearest, Single;
    if used >= MANTISSA {
      var u := SingleLarge(used);
      if u == w {
        TenthGap(used, u);
      } else if u < w {
        DoubleGap(u, w);
      } else {
        DoubleGap(w, u);
      }
    }
  }

  /** For all sizes: below 2^28 buckets the test is the comparison with one tenth, from there on the comparison
      with the middle below the single-precision number next to one tenth. */
  lemma {:induction false} ShrinkTestIs(used: nat, size: nat)
    requires IsPow2(size)
    ensures FloatShrinks(used, size) <==>
            if size < 0x1000_0000 then used * 10 < size else 2 * used <= 26843545 * (size / 0x800_0000)
  {
    hide IsPow2, FloatShrinks;
    if size < 0x1000_0000 {
      ShrinkSmall(used, size);
    } else {
      var w := Multiple27(size);
      ShrinkLarge(used, w);
      assert size / 0x800_0000 == w;
    }
  }

  /** Rounding never decides about shrinking exactly up to 2^28 buckets. */
  lemma {:induction false} ShrinkExactWhen(size: nat)
    requires IsPow2(size)
    ensures (forall used: nat :: FloatShrinks(used, size) <==> used * 10 < size) <==> size <= 0x1000_0000
  {
    hide IsPow2, FloatShrinks;
    if size <= 0x1000_0000 {
      forall used: nat ensures FloatShrinks(used, size) <==> used * 10 < size { ShrinkTestIs(used, size); }
    } else {
      Power27();
      Doubling(0x800_0000);
      DoubleGap(0x1000_0000, size);
      var used := 53687091 * (size / 0x2000_0000);
      var w := Multiple27(size);
      FourDivides(size, w);
      ShrinkTestIs(used, size);
      assert !FloatShrinks(used, size) && used * 10 < size;
    }
  }

  /** With 2^29 buckets, 53687091 entries are less than a tenth, but not in single precision. */
  lemma {:induction false} ShrinkTestRounds()
    ensures 53687091 * 10 < 0x2000_0000 && !FloatShrinks(53687091, 0x2000_0000)
  {
    hide IsPow2, FloatShrinks;
    Power27();
    Doubling(0x800_0000);
    Doubling(0x1000_0000);
    ShrinkTestIs(53687091, 0x2000_0000);
  }

  lemma {:induction false} FourDivides(size: nat, w: nat)
    requires size == 0x800_0000 * w && IsPow2(w) && w >= 4
    ensures size == 0x2000_0000 * (size / 0x2000_0000) && size / 0x800_0000 == w == 4 * (size / 0x2000_0000)
    ensures size / 0x2000_0000 > 0
  {
    assert w % 2 == 0 && (w / 2) % 2 == 0;
    var v := w / 2 / 2;
    assert w == 4 * v && size == 0x2000_0000 * v;
  }

  /** A table that shrinks is less than a quarter full. */
  lemma {:induction false} ShrinkMeansSparse(used: nat, size: nat)
    requires IsPow2(size) && FloatShrinks(used, size)
    ensures 4 * used < size
  {
    hide IsPow2, FloatShrinks;
    ShrinkTestIs(used, size);
    if size >= 0x1000_0000 { var w := Multiple27(size); }
  }
}
