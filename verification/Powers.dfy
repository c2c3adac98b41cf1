/** Powers of two and Euclidean division, for shifts modelled on numbers. */
module Powers {

  function Pow2(n: nat): (r: nat)
    ensures r >= 1
  {
    if n == 0 then 1 else 2 * Pow2(n - 1)
  }

  lemma {:induction false} Pow2Add(m: nat, n: nat)
    ensures Pow2(m + n) == Pow2(m) * Pow2(n)
  {
    if m > 0 {
      Pow2Add(m - 1, n);
      Pow2Next(m - 1);
      Pow2Next(m - 1 + n);
      hide Pow2;
      Distribute(Pow2(m - 1), Pow2(m - 1), Pow2(n));
    }
  }

  lemma Pow2Next(n: nat)
    ensures Pow2(n + 1) == Pow2(n) + Pow2(n)
  {
  }

  lemma {:induction false} Pow2Monotone(m: nat, n: nat)
    requires m <= n
    ensures Pow2(m) <= Pow2(n)
    decreases n - m
  {
    if m < n {
      Pow2Monotone(m + 1, n);
    }
  }

  lemma Pow2Values()
    ensures Pow2(6) == 64 && Pow2(7) == 128 && Pow2(15) == 0x8000 && Pow2(17) == 0x2_0000
    ensures Pow2(26) == 0x400_0000 && Pow2(31) == 0x8000_0000 && Pow2(32) == 0x1_0000_0000
  {
    assert Pow2(3) == 8 && Pow2(6) == 64;
    assert Pow2(9) == 512 && Pow2(12) == 0x1000 && Pow2(15) == 0x8000;
    assert Pow2(18) == 0x4_0000 && Pow2(21) == 0x20_0000 && Pow2(24) == 0x100_0000;
    assert Pow2(27) == 0x800_0000 && Pow2(30) == 0x4000_0000;
  }

  /** Quotient and remainder are determined by their defining equation. */
  lemma DivModUnique(a: nat, d: nat, q: nat, r: nat)
    requires d > 0 && a == q * d + r && r < d
    ensures a / d == q && a % d == r
  {
    var q', r' := a / d, a % d;
    assert a == d * q' + r';
    if q' < q {
      MulLe(q' + 1, q, d);
    } else if q < q' {
      MulLe(q + 1, q', d);
    }
  }

  lemma MulLe(a: nat, b: nat, d: nat)
    requires a <= b
    ensures a * d <= b * d
  {
  }

  lemma MulLtCancel(a: nat, b: nat, d: nat)
    requires a * d < b * d
    ensures a < b
  {
    if a >= b {
      MulLe(b, a, d);
    }
  }

  lemma MulLt(a: nat, b: nat, d: nat)
    requires a < b && d > 0
    ensures a * d < b * d
  {
  }

  lemma DivModEquation(a: nat, d: nat)
    requires d > 0
    ensures a == (a / d) * d + a % d && a % d < d
  {
  }

  /** Halving the divisor's share: one more bit of a quotient. */
  lemma DoubledDivision(a: nat, d: nat)
    requires d > 0
    ensures var x := 2 * (a % d); var bit := if x < d then 0 else 1;
      (2 * a) / d == 2 * (a / d) + bit && (2 * a) % d == x - bit * d
  {
    DivModEquation(a, d);
    var q, t := a / d, a % d;
    Distribute(q, q, d);
    if 2 * t < d {
      DivModUnique(2 * a, d, q + q, 2 * t);
    } else {
      Distribute(q + q, 1, d);
      DivModUnique(2 * a, d, q + q + 1, 2 * t - d);
    }
  }

  /** A proper fraction scaled by p stays below p. */
  lemma ScaledFraction(r: nat, d: nat, p: nat)
    requires r < d && p > 0
    ensures (r * p) / d < p
  {
    DivModEquation(r * p, d);
    MulLt(r, d, p);
    assert d * p == p * d;
    MulLtCancel((r * p) / d, p, d);
  }

  /** Scaling before dividing: integer part, fraction and rest. */
  lemma ScaledDivision(a: nat, d: nat, p: nat)
    requires d > 0
    ensures (a * p) / d == (a / d) * p + ((a % d) * p) / d
    ensures (a * p) % d == ((a % d) * p) % d
  {
    var q, r := a / d, a % d;
    var f, t := (r * p) / d, (r * p) % d;
    DivModEquation(a, d);
    DivModEquation(r * p, d);
    ScaledParts(q, r, d, p, f, t);
    DivModUnique(a * p, d, q * p + f, t);
  }

  lemma ScaledParts(q: nat, r: nat, d: nat, p: nat, f: nat, t: nat)
    requires r * p == f * d + t
    ensures (q * d + r) * p == (q * p + f) * d + t
  {
    Distribute(q * d, r, p);
    Distribute(q * p, f, d);
    SwapFactors(q, d, p);
  }

  lemma SwapFactors(a: nat, b: nat, c: nat)
    ensures (a * b) * c == (a * c) * b
  {
  }

  lemma Distribute(a: nat, b: nat, p: nat)
    ensures (a + b) * p == a * p + b * p
  {
  }
}
