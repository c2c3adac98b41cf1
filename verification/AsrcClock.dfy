/** The ASRC clock divider search (drivers/asrc/fsl_asrc.c:144-173). */
module AsrcClock {
  import opened Bytes
  import opened Powers

  /** Halves until the divider fits, counting the halvings. */
  function Halve(divider: nat, prescaler: nat): (nat, nat) {
    if divider > 8 then Halve(divider / 2, prescaler + 1) else (divider, prescaler)
  }

  /** A prescaler of one is only usable with a divider of one, so it is moved to two. */
  function Coarse(quotient: nat): (nat, nat) {
    var (d, p) := Halve(quotient, 0);
    if p == 1 && d != 1 then (d / 2, 2) else (d, p)
  }

  /** Divider and prescaler after fine tuning. */
  function Tuned(rate: nat, source: nat): (nat, nat)
    requires 0 < rate <= source
  {
    var (d, p) := Coarse(source / rate);
    if d == 0 || source / (Pow2(p) * d) > rate then (d + 1, p) else (d, p)
  }

  function Packed(divider: nat, prescaler: nat): nat
    requires divider >= 1
  {
    (divider - 1) * 8 + prescaler % 8
  }

  /** What the register fields, three bits each, say. */
  function Decoded(v: nat): (nat, nat) { (v / 8 % 8 + 1, v % 8) }

  method CalculateClockDivider(rate: nat, source: nat) returns (v: nat)
    requires 0 < rate <= source < WORD_RANGE
    ensures var (d, p) := Tuned(rate, source);
      d >= 1 && v == Packed(d, p) && v / 8 == d - 1 && v % 8 == p % 8
  {
    var divider := source / rate;
    var prescaler := 0;
    while divider > 8
      invariant divider >= 0 && prescaler >= 0
      invariant Halve(divider, prescaler) == Halve(source / rate, 0)
    {
      divider := divider / 2;
      prescaler := prescaler + 1;
    }
    if prescaler == 1 && divider != 1 {
      divider := divider / 2;
      prescaler := prescaler + 1;
    }
    CoarseFits(source / rate);
    MulPositive(Pow2(prescaler), divider);
    if source / (Pow2(prescaler) * divider) > rate {
      divider := divider + 1;
    }
    v := (divider - 1) * 8 + prescaler % 8;
  }

  lemma MulPositive(a: nat, b: nat)
    requires a > 0 && b > 0
    ensures a * b > 0
  {
  }

  lemma {:induction false} HalveMeaning(q: nat, p: nat)
    requires q >= 1
    ensures var (d, n) := Halve(q, p);
      && n >= p && 1 <= d <= 8
      && d * Pow2(n - p) <= q < (d + 1) * Pow2(n - p)
      && (n > p ==> d >= 4 && q >= 9 * Pow2(n - p - 1))
  {
    if q > 8 {
      HalveMeaning(q / 2, p + 1);
      var (d, n) := Halve(q, p);
      var w := Pow2(n - p - 1);
      assert Pow2(n - p) == 2 * w;
      if n > p + 1 {
        assert w == 2 * Pow2(n - p - 2);
      } else {
        assert w == 1;
      }
      hide Pow2, Halve;
      DoubledBounds(q, d, w);
    } else {
      assert Pow2(0) == 1;
    }
  }

  lemma DoubledBounds(q: nat, d: nat, w: nat)
    requires d * w <= q / 2 < (d + 1) * w
    ensures d * (2 * w) <= q < (d + 1) * (2 * w)
  {
    assert d * (2 * w) == 2 * (d * w) && (d + 1) * (2 * w) == 2 * ((d + 1) * w);
  }

  /** The coarse pair brackets the quotient; the prescaler is never one and is below eight exactly
      when the quotient is below 1152. */
  lemma CoarseFits(q: nat)
    requires q >= 1
    ensures var (d, p) := Coarse(q);
      && 1 <= d <= 8 && p != 1
      && d * Pow2(p) <= q < (d + 1) * Pow2(p)
      && (p <= 7 <==> q < 1152)
  {
    HalveMeaning(q, 0);
    var (d, p) := Halve(q, 0);
    assert Pow2(1) == 2 && Pow2(2) == 4;
    Pow2Values();
    if p <= 7 {
      Pow2Monotone(p, 7);
      MulLe(d + 1, 9, Pow2(p));
    } else {
      Pow2Monotone(7, p - 1);
    }
  }

  lemma {:induction false} HalveFinest(q: nat, p0: nat, d: nat, p: nat)
    requires d <= 8 && d * Pow2(p) <= q < (d + 1) * Pow2(p)
    ensures Halve(q, p0).1 <= p0 + p
  {
    if q > 8 {
      assert Pow2(0) == 1;
      assert p > 0;
      var w := Pow2(p - 1);
      assert Pow2(p) == 2 * w;
      hide Halve, Pow2;
      HalvedBounds(q, d, w);
      HalveFinest(q / 2, p0 + 1, d, p - 1);
      HalveOnce(q, p0);
    }
  }

  lemma HalveOnce(q: nat, p: nat)
    requires q > 8
    ensures Halve(q, p) == Halve(q / 2, p + 1)
  {
  }

  lemma HalvedBounds(q: nat, d: nat, w: nat)
    requires d * (2 * w) <= q < (d + 1) * (2 * w)
    ensures d * w <= q / 2 < (d + 1) * w
  {
    assert d * (2 * w) == 2 * (d * w) && (d + 1) * (2 * w) == 2 * ((d + 1) * w);
  }

  /** No usable pair that brackets the quotient has a smaller prescaler, and the prescaler determines
      the divider: the search keeps the finest pair. */
  lemma CoarseFinest(q: nat, d: nat, p: nat)
    requires q >= 1 && 1 <= d <= 8 && p != 1 && d * Pow2(p) <= q < (d + 1) * Pow2(p)
    ensures Coarse(q).1 <= p
    ensures Coarse(q).1 == p ==> Coarse(q).0 == d
  {
    HalveFinest(q, 0, d, p);
    CoarseFits(q);
    if p == 0 {
      assert Pow2(0) == 1;
    }
    var (d', p') := Coarse(q);
    if p' == p {
      SameDivider(q, d, d', Pow2(p));
    }
  }

  lemma SameDivider(q: nat, d: nat, d': nat, w: nat)
    requires d * w <= q < (d + 1) * w && d' * w <= q < (d' + 1) * w
    ensures d == d'
  {
    MulLtCancel(d, d' + 1, w);
    MulLtCancel(d', d + 1, w);
  }

  /** Tuning keeps the prescaler, and raises the divider by one exactly when the coarse pair is too fast. */
  lemma TuningExact(rate: nat, source: nat)
    requires 0 < rate <= source
    ensures var (d, p) := Coarse(source / rate);
      && Pow2(p) * d > 0
      && Tuned(rate, source) == (if source / (Pow2(p) * d) > rate then d + 1 else d, p)
  {
    CoarseFits(source / rate);
    var (d, p) := Coarse(source / rate);
    MulPositive(Pow2(p), d);
  }

  /** A quotient that is not halved, and tuned. */
  lemma SearchExample()
    ensures Tuned(48000, 300000) == (7, 0) && Packed(7, 0) == 48
  {
    assert Pow2(0) == 1 && Coarse(6) == (6, 0);
  }

  /** The divided clock never runs faster than asked, and tuning moves the divider only when the one
      below would. */
  lemma DividerMeaning(rate: nat, source: nat)
    requires 0 < rate <= source
    ensures var (d, p) := Tuned(rate, source);
      && 1 <= d <= 9 && p != 1 && Pow2(p) * d > 0
      && source / (Pow2(p) * d) <= rate
      && ((d, p) != Coarse(source / rate) ==> d >= 2 && Pow2(p) * (d - 1) > 0 && source / (Pow2(p) * (d - 1)) > rate)
  {
    var q := source / rate;
    CoarseFits(q);
    var (d, p) := Coarse(q);
    MulPositive(Pow2(p), d);
    MulPositive(Pow2(p), d + 1);
    var next := Pow2(p) * (d + 1);
    assert q < next by { assert next == (d + 1) * Pow2(p); }
    NextDivider(rate, source, next);
  }

  lemma NextDivider(rate: nat, source: nat, next: nat)
    requires rate > 0 && source / rate < next
    ensures source / next <= rate
  {
    DivModEquation(source, rate);
    DivModEquation(source, next);
    MulLe(source / rate + 1, next, rate);
    assert source < next * rate == rate * next by { Distribute(source / rate, 1, rate); }
    assert (source / next) * next <= source;
    MulLtCancel(source / next, rate, next);
  }

  /** The halving ends at eight with p halvings exactly for these quotients. */
  lemma {:induction false} HalveToEight(q: nat, p: nat, p0: nat)
    requires 8 * Pow2(p) <= q < 9 * Pow2(p)
    ensures Halve(q, p0) == (8, p0 + p)
  {
    if p > 0 {
      HalveToEight(q / 2, p - 1, p0 + 1);
    }
  }

  /** Coarse dividers of eight that the fine tuning finds too small. */
  ghost predicate NeedsNine(rate: nat, source: nat)
    requires rate > 0
  {
    exists p: nat :: p != 1 && 8 * Pow2(p) <= source / rate < 9 * Pow2(p) && source >= 8 * Pow2(p) * (rate + 1)
  }

  /** The divider is tuned to nine, which its field cannot hold, exactly for these rates. */
  lemma NineExact(rate: nat, source: nat)
    requires 0 < rate <= source
    ensures Tuned(rate, source).0 == 9 <==> NeedsNine(rate, source)
  {
    var q := source / rate;
    CoarseFits(q);
    var (d, p) := Coarse(q);
    if Tuned(rate, source).0 == 9 {
      AboveQuotient(source, rate, 8 * Pow2(p));
    } else if NeedsNine(rate, source) {
      var p' :| p' != 1 && 8 * Pow2(p') <= q < 9 * Pow2(p') && source >= 8 * Pow2(p') * (rate + 1);
      HalveToEight(q, p', 0);
      AboveQuotient(source, rate, 8 * Pow2(p'));
    }
  }

  lemma AboveQuotient(source: nat, rate: nat, m: nat)
    requires m > 0
    ensures source / m > rate <==> source >= m * (rate + 1)
  {
    DivModEquation(source, m);
    if source / m > rate {
      MulLe(rate + 1, source / m, m);
    } else {
      MulLe(source / m, rate, m);
      Distribute(rate, 1, m);
    }
  }

  /** The packed value decodes to the pair exactly when the divider is not tuned to nine and the
      quotient is below 1152. */
  lemma PackedDecodes(rate: nat, source: nat)
    requires 0 < rate <= source
    ensures var (d, p) := Tuned(rate, source);
      d >= 1 && (Decoded(Packed(d, p)) == (d, p) <==> !NeedsNine(rate, source) && source / rate < 1152)
  {
    DividerMeaning(rate, source);
    CoarseFits(source / rate);
    NineExact(rate, source);
    assert Tuned(rate, source).1 == Coarse(source / rate).1;
    hide Tuned, Coarse, Packed, Decoded, NeedsNine;
    var (d, p) := Tuned(rate, source);
    FieldsFit(d, p);
  }

  lemma FieldsFit(d: nat, p: nat)
    requires 1 <= d <= 9
    ensures Decoded(Packed(d, p)) == (d, p) <==> d <= 8 && p <= 7
  {
    var low := p % 8;
    DivModUnique((d - 1) * 8 + low, 8, d - 1, low);
    assert low == p <==> p <= 7;
    assert (d - 1) % 8 == d - 1 <==> d <= 8;
  }

  /** A clock whose divider is tuned to nine, which the field cannot hold. */
  lemma NineExample()
    ensures Tuned(10, 89) == (9, 0) && Decoded(Packed(9, 0)) != (9, 0)
  {
  }
}
