/** Powers of two: `std::bit_ceil` and the mask `h & (size - 1)` used for bucket selection. */
module Pow2 {
  predicate IsPow2(n: nat) {
    n == 1 || (n > 1 && n % 2 == 0 && IsPow2(n / 2))
  }

  /** Bitwise conjunction of two naturals, one binary digit at a time. */
  function And(a: nat, b: nat): (r: nat)
    ensures r <= b
  {
    if a == 0 || b == 0 then 0
    else (if a % 2 == 1 && b % 2 == 1 then 1 else 0) + 2 * And(a / 2, b / 2)
  }

  /** The smallest power of two that is at least `n`. */
  function BitCeil(n: nat): (p: nat)
    ensures IsPow2(p) && n <= p && (n >= 1 ==> p < 2 * n)
  {
    BitCeilFrom(1, n)
  }

  function BitCeilFrom(p: nat, n: nat): (r: nat)
    requires IsPow2(p) && (p == 1 || p < 2 * n)
    ensures IsPow2(r) && n <= r && p <= r && (n >= 1 ==> r < 2 * n)
    decreases if p < n then n - p else 0
  {
    if n <= p then p else BitCeilFrom(2 * p, n)
  }

  lemma {:induction false} BitCeilIsLeast(n: nat, q: nat)
    requires IsPow2(q) && n <= q
    ensures BitCeil(n) <= q
  {
    if q < BitCeil(n) {
      DoubleGap(q, BitCeil(n));
    }
  }

  /** Two different powers of two are at least a factor of two apart. */
  lemma {:induction false} DoubleGap(p: nat, q: nat)
    requires IsPow2(p) && IsPow2(q) && p < q
    ensures 2 * p <= q
  {
    if p > 1 { DoubleGap(p / 2, q / 2); }
  }

  lemma {:induction false} DivModUnique(a: int, n: int, q: int, r: int)
    requires 0 < n && 0 <= r < n && a == q * n + r
    ensures a / n == q && a % n == r
  {
    var d := a / n - q;
    assert a == (a / n) * n + a % n;
    assert d * n == r - a % n;
    assert d >= 1 ==> d * n >= n;
    assert d <= -1 ==> d * n <= -n;
  }

  lemma {:induction false} HalfMod(h: nat, m: nat)
    requires 0 < m
    ensures h % (2 * m) == h % 2 + 2 * ((h / 2) % m)
  {
    var g := h / 2;
    var q, r := g / m, g % m;
    assert g == q * m + r && 0 <= r < m;
    assert h == 2 * g + h % 2;
    assert 2 * (q * m) == q * (2 * m);
    DivModUnique(h, 2 * m, q, 2 * r + h % 2);
  }

  lemma {:induction false} AndOdd(h: nat, m: nat)
    requires 0 < m
    ensures And(h, 2 * m - 1) == h % 2 + 2 * And(h / 2, m - 1)
  {
    assert (2 * m - 1) % 2 == 1 && (2 * m - 1) / 2 == m - 1;
  }

  /** Masking with `size - 1` is reduction modulo `size` exactly because sizes are powers of two. */
  lemma {:induction false} MaskIsMod(h: nat, n: nat)
    requires IsPow2(n)
    ensures And(h, n - 1) == h % n
  {
    if n > 1 {
      var m := n / 2;
      assert n == 2 * m;
      MaskIsMod(h / 2, m);
      HalfMod(h, m);
      AndOdd(h, m);
    }
  }
}
