/** The shifts and masks by which `uthash.h` divides by a power of two. */
module BitMath {

  function Pow2(k: nat): (p: nat)
    ensures p > 0
  {
    if k == 0 then 1 else 2 * Pow2(k - 1)
  }

  /** The remainder of a division, by repeated subtraction. */
  function Remainder(x: nat, d: nat): (r: nat)
    requires d > 0
    ensures r < d
  {
    if x < d then x else Remainder(x - d, d)
  }

  lemma {:induction false} RemainderIsMod(x: nat, d: nat)
    requires d > 0
    ensures Remainder(x, d) == x % d
  {
    if x >= d {
      RemainderIsMod(x - d, d);
      var q, r := DivMod(x - d, d);
      assert d * (q + 1) == d * q + d;
      QuotientUnique(x, d, q + 1, r);
    }
  }

  /** A remainder by `2 * d` is one by `d`, or that plus `d`. */
  lemma {:induction false} RemainderDoubled(x: nat, d: nat)
    requires d > 0
    ensures Remainder(x, 2 * d) == Remainder(x, d) || Remainder(x, 2 * d) == Remainder(x, d) + d
  {
    if x >= 2 * d {
      RemainderDoubled(x - 2 * d, d);
      assert Remainder(x, d) == Remainder(x - d, d) == Remainder(x - 2 * d, d);
    }
  }

  /** Bitwise conjunction of two unsigned numbers. */
  function BitAnd(x: nat, y: nat): nat {
    if x == 0 || y == 0 then 0 else 2 * BitAnd(x / 2, y / 2) + (x % 2) * (y % 2)
  }

  /** The unsigned shift `x >> k`. */
  function ShiftRight(x: nat, k: nat): nat {
    if k == 0 then x else ShiftRight(x / 2, k - 1)
  }

  lemma HalfMask(k: nat)
    requires k > 0
    ensures (Pow2(k) - 1) / 2 == Pow2(k - 1) - 1 && (Pow2(k) - 1) % 2 == 1
  {
  }

  lemma DivModHalves(x: nat, p: nat)
    requires p > 0
    ensures x / 2 / p == x / (2 * p) && 2 * (x / 2 % p) + x % 2 == x % (2 * p)
  {
    var q, r := x / 2 / p, x / 2 % p;
    assert x / 2 == p * q + r;
    assert x == (2 * p) * q + (2 * r + x % 2);
    QuotientUnique(x, 2 * p, q, 2 * r + x % 2);
  }

  lemma QuotientUnique(x: nat, d: nat, q: nat, r: nat)
    requires r < d && x == d * q + r
    ensures x / d == q && x % d == r
  {
    var e := x / d - q;
    assert x == d * (x / d) + x % d;
    assert d * e == r - x % d;
    if e >= 1 { MulGrows(d, e); }
    if e <= -1 { MulGrows(d, -e); }
  }

  lemma MulGrows(d: int, e: int)
    requires d >= 0 && e >= 1
    ensures d * e >= d
  {
  }

  /** Masking with `2^k - 1` is the remainder by `2^k`. */
  lemma {:induction false} MaskIsMod(x: nat, k: nat)
    ensures BitAnd(x, Pow2(k) - 1) == x % Pow2(k)
  {
    if k > 0 {
      HalfMask(k);
      MaskIsMod(x / 2, k - 1);
      DivModHalves(x, Pow2(k - 1));
      assert BitAnd(x, Pow2(k) - 1) == 2 * BitAnd(x / 2, Pow2(k - 1) - 1) + x % 2;
    }
  }

  /** Shifting by `k` is the quotient by `2^k`. */
  lemma {:induction false} ShiftIsDiv(x: nat, k: nat)
    ensures ShiftRight(x, k) == x / Pow2(k)
  {
    if k > 0 {
      ShiftIsDiv(x / 2, k - 1);
      DivModHalves(x, Pow2(k - 1));
    }
  }

  /** How many boxes of size `d` hold `n` things, filling one after another. */
  function Ceiling(n: nat, d: nat): nat
    requires d > 0
  {
    if n == 0 then 0 else if n <= d then 1 else 1 + Ceiling(n - d, d)
  }

  /** It is enough boxes, and one fewer would not do. */
  lemma {:induction false} CeilingBounds(n: nat, d: nat)
    requires d > 0
    ensures n <= Ceiling(n, d) * d < n + d
  {
    if n > d {
      CeilingBounds(n - d, d);
      assert Ceiling(n, d) * d == Ceiling(n - d, d) * d + d;
    }
  }

  lemma {:induction false} CeilingFromRemainder(n: nat, d: nat, q: nat, r: nat)
    requires r < d && n == d * q + r
    ensures Ceiling(n, d) == if r != 0 then q + 1 else q
  {
    if q > 0 {
      assert d * q == d * (q - 1) + d;
      CeilingFromRemainder(n - d, d, q - 1, r);
    }
  }

  /** The comment's claim for `ideal_chain_maxlen`: shift plus masked carry is the ceiling. */
  lemma ShiftAndMaskIsCeiling(n: nat, k: nat)
    ensures ShiftRight(n, k) + (if BitAnd(n, Pow2(k) - 1) != 0 then 1 else 0) == Ceiling(n, Pow2(k))
  {
    var d, q, r := QuotientAndRemainder(n, k);
    CeilingFromRemainder(n, d, q, r);
  }

  /** A product, by repeated addition. */
  function Times(m: nat, d: nat): nat {
    if m == 0 then 0 else Times(m - 1, d) + d
  }

  lemma {:induction false} TimesIsProduct(m: nat, d: nat)
    ensures Times(m, d) == m * d
  {
    if m > 0 {
      TimesIsProduct(m - 1, d);
      assert m * d == (m - 1) * d + d;
    }
  }

  lemma QuotientAndRemainder(n: nat, k: nat) returns (d: nat, q: nat, r: nat)
    ensures d == Pow2(k) && q == ShiftRight(n, k) && r == BitAnd(n, Pow2(k) - 1)
    ensures r < d && n == d * q + r
  {
    MaskIsMod(n, k);
    ShiftIsDiv(n, k);
    d := Pow2(k);
    q, r := DivMod(n, d);
  }

  lemma DivMod(n: nat, d: nat) returns (q: nat, r: nat)
    requires d > 0
    ensures q == n / d && r == n % d && r < d && n == d * q + r
  {
    q, r := n / d, n % d;
  }
}
