/** Sample-rate arithmetic of the ASRC driver (drivers/asrc/fsl_asrc.c:175-233, 312-357). */
module AsrcRate {
  import opened Bytes
  import opened Powers

  const DEPTH: nat := 26
  const SCALE: nat := 0x400_0000  // two to the DEPTH

  // ---- Ideal ratio ----

  /** x | (1 << k) on numbers. */
  function OrBit(x: nat, k: nat): nat {
    if (x / Pow2(k)) % 2 == 1 then x else x + Pow2(k)
  }

  lemma OrClearBit(x: nat, k: nat)
    requires x % Pow2(k + 1) == 0
    ensures OrBit(x, k) == x + Pow2(k)
    ensures (x + Pow2(k)) % Pow2(k) == 0 && x % Pow2(k) == 0
  {
    EvenMultiple(x, x / Pow2(k + 1), Pow2(k));
  }

  lemma EvenMultiple(x: nat, m: nat, p: nat)
    requires p > 0 && x == (2 * p) * m
    ensures x / p == 2 * m && x % p == 0 && (x + p) % p == 0
  {
    assert x == (2 * m) * p + 0;
    DivModUnique(x, p, 2 * m, 0);
    assert x + p == (2 * m + 1) * p + 0;
    DivModUnique(x + p, p, 2 * m + 1, 0);
  }

  /** The remainder and the fraction after i bits of exact long division of r by d. */
  ghost function Rest(r: nat, d: nat, i: nat): nat
    requires d > 0
  {
    (r * Pow2(i)) % d
  }

  ghost function Fraction(r: nat, d: nat, i: nat): nat
    requires d > 0
  {
    (r * Pow2(i)) / d
  }

  lemma DivisionStep(r: nat, d: nat, i: nat)
    requires d > 0
    ensures var x := 2 * Rest(r, d, i); var bit := if x < d then 0 else 1;
      Rest(r, d, i + 1) == x - bit * d && Fraction(r, d, i + 1) == 2 * Fraction(r, d, i) + bit
  {
    DoubledDivision(r * Pow2(i), d);
    assert r * Pow2(i + 1) == 2 * (r * Pow2(i));
  }

  lemma FractionBound(r: nat, d: nat, i: nat)
    requires r < d
    ensures Fraction(r, d, i) < Pow2(i)
  {
    ScaledFraction(r, d, Pow2(i));
  }

  /** Once the remainder is zero the remaining bits are zero. */
  lemma {:induction false} ZeroRest(r: nat, d: nat, i: nat, j: nat)
    requires d > 0 && i <= j && Rest(r, d, i) == 0
    ensures Rest(r, d, j) == 0 && Fraction(r, d, j) == Fraction(r, d, i) * Pow2(j - i)
    decreases j - i
  {
    if i < j {
      DivisionStep(r, d, i);
      ZeroRest(r, d, i + 1, j);
      assert Fraction(r, d, j) == (2 * Fraction(r, d, i)) * Pow2(j - i - 1);
    }
  }

  /** The ratio register content the driver is after: input over output with 26 fraction bits. */
  ghost function ExactRatio(inRate: nat, outRate: nat): nat
    requires outRate > 0
  {
    inRate * SCALE / outRate
  }

  /** What the division leaves of the input rate. */
  ghost function Leftover(inRate: nat, outRate: nat): (n: nat)
    requires outRate > 0
    ensures n < outRate
  {
    inRate * SCALE % outRate
  }

  /** No doubling in the loop overflows 32 bits. */
  ghost predicate NoOverflow(inRate: nat, outRate: nat)
    requires outRate > 0
  {
    forall i | 0 <= i < DEPTH :: Rest(inRate % outRate, outRate, i) < Pow2(31)
  }

  lemma SmallRatesFit(inRate: nat, outRate: nat)
    requires 0 < outRate <= Pow2(31)
    ensures NoOverflow(inRate, outRate)
  {
  }

  /** The exact ratio is the integer part followed by the fraction bits. */
  lemma RatioParts(inRate: nat, outRate: nat)
    requires outRate > 0
    ensures ExactRatio(inRate, outRate)
         == (inRate / outRate) * SCALE + Fraction(inRate % outRate, outRate, DEPTH)
    ensures Leftover(inRate, outRate) == Rest(inRate % outRate, outRate, DEPTH)
  {
    Pow2Values();
    hide Pow2;
    ScaledDivision(inRate, outRate, SCALE);
  }

  /** Truncating to 32 bits keeps the fraction and cuts the integer part. */
  lemma TruncatedRatio(q: nat, f: nat)
    requires f < SCALE
    ensures (q * SCALE + f) % WORD_RANGE == (q * SCALE) % WORD_RANGE + f
    ensures (q * SCALE) % WORD_RANGE % SCALE == 0
    ensures q < 64 <==> q * SCALE + f < WORD_RANGE
  {
    var hi, lo := q / 64, q % 64;
    assert q * SCALE == hi * WORD_RANGE + lo * SCALE;
    DivModUnique(q * SCALE, WORD_RANGE, hi, lo * SCALE);
    DivModUnique(q * SCALE + f, WORD_RANGE, hi, lo * SCALE + f);
    DivModUnique(lo * SCALE, SCALE, lo, 0);
  }

  /** What the loop has established after i bits: exact so far, or already too small for good. */
  ghost predicate Progress(r: nat, d: nat, base: nat, i: nat, ratio: nat, rest: nat, exact: bool)
    requires d > 0 && i <= DEPTH
  {
    && ratio % Pow2(DEPTH - i) == 0
    && (exact ==>
          && rest == Rest(r, d, i)
          && ratio == base + Fraction(r, d, i) * Pow2(DEPTH - i)
          && forall j | 0 <= j < i :: Rest(r, d, j) < Pow2(31))
    && (!exact ==>
          && ratio + Pow2(DEPTH - i) <= base + Fraction(r, d, DEPTH)
          && exists j | 0 <= j < i :: Rest(r, d, j) >= Pow2(31))
  }

  /** The 32-bit loop: doubling wraps, a set bit subtracts the divisor, a zero rest ends it.  An
      overflow can only make the ratio too small. */
  method LongDivision(inRate: nat, outRate: nat) returns (ratio: nat, rest: nat)
    requires inRate < WORD_RANGE && 0 < outRate < WORD_RANGE
    ensures ratio == ExactRatio(inRate, outRate) % WORD_RANGE <==> NoOverflow(inRate, outRate)
    ensures ratio <= ExactRatio(inRate, outRate) % WORD_RANGE
    ensures NoOverflow(inRate, outRate) ==> rest == Leftover(inRate, outRate)
    ensures inRate / outRate < 64 <==> ExactRatio(inRate, outRate) < WORD_RANGE
  {
    hide Pow2, OrBit, Progress, ExactRatio, NoOverflow, Leftover;
    ghost var r, d := inRate % outRate, outRate;
    ratio := ((inRate / outRate) * SCALE) % WORD_RANGE;
    ghost var base := ratio;
    rest := inRate % outRate;
    ghost var exact := true;
    LoopStart(inRate, outRate);
    var i := 1;
    while i <= DEPTH
      invariant 1 <= i <= DEPTH + 1
      invariant rest < WORD_RANGE
      invariant Progress(r, d, base, i - 1, ratio, rest, exact)
      decreases DEPTH - i
    {
      LoopStep(r, d, base, i - 1, ratio, rest, exact);
      exact := exact && 2 * rest < WORD_RANGE;
      rest := (2 * rest) % WORD_RANGE;
      if rest < outRate {
        i := i + 1;
        continue;
      }
      ratio := OrBit(ratio, DEPTH - i);
      rest := rest - outRate;
      if rest == 0 {
        i := i + 1;
        break;
      }
      i := i + 1;
    }
    LoopEnd(inRate, outRate, i - 1, ratio, rest, exact);
  }

  lemma LoopStart(inRate: nat, outRate: nat)
    requires 0 < outRate
    ensures var base := ((inRate / outRate) * SCALE) % WORD_RANGE;
      Progress(inRate % outRate, outRate, base, 0, base, inRate % outRate, true)
  {
    var r := inRate % outRate;
    Pow2Values();
    assert Pow2(0) == 1;
    hide Pow2;
    assert r * Pow2(0) == r;
    DivModUnique(r, outRate, 0, r);
    TruncatedRatio(inRate / outRate, 0);
  }

  /** Multiplying out a bit weight. */
  lemma Weights(f: nat, bit: nat, w: nat)
    ensures (2 * f + bit) * w == f * (2 * w) + bit * w
  {
  }

  lemma {:induction false} FractionGrows(r: nat, d: nat, i: nat, j: nat)
    requires d > 0 && i <= j
    ensures Fraction(r, d, j) >= Fraction(r, d, i) * Pow2(j - i)
    decreases j - i
  {
    if i < j {
      DivisionStep(r, d, i);
      FractionGrows(r, d, i + 1, j);
      var w := Pow2(j - i - 1);
      MulLe(2 * Fraction(r, d, i), Fraction(r, d, i + 1), w);
      Weights(Fraction(r, d, i), 0, w);
    }
  }

  /** The bit of this pass is clear in what went before. */
  lemma PassBit(i: nat, ratio: nat)
    requires i < DEPTH && ratio % Pow2(DEPTH - i) == 0
    ensures var k := DEPTH - (i + 1);
      && Pow2(DEPTH - i) == 2 * Pow2(k) && OrBit(ratio, k) == ratio + Pow2(k)
      && (ratio + Pow2(k)) % Pow2(k) == 0 && ratio % Pow2(k) == 0
  {
    assert Pow2(DEPTH - i) == 2 * Pow2(DEPTH - (i + 1));
    OrClearBit(ratio, DEPTH - (i + 1));
  }

  lemma LoopStep(r: nat, d: nat, base: nat, i: nat, ratio: nat, rest: nat, exact: bool)
    requires r < d < WORD_RANGE && i < DEPTH && rest < WORD_RANGE && Progress(r, d, base, i, ratio, rest, exact)
    ensures var x := (2 * rest) % WORD_RANGE;
      Progress(r, d, base, i + 1,
               if x < d then ratio else OrBit(ratio, DEPTH - (i + 1)),
               if x < d then x else x - d,
               exact && 2 * rest < WORD_RANGE)
  {
    hide Pow2, OrBit, Rest, Fraction;
    PassBit(i, ratio);
    if exact {
      RestBound(r, d, i);
      if 2 * rest < WORD_RANGE {
        ExactPass(r, d, base, i, ratio, rest);
      } else {
        OverflowPass(r, d, base, i, ratio, rest);
      }
    }
  }

  lemma ExactPass(r: nat, d: nat, base: nat, i: nat, ratio: nat, rest: nat)
    requires r < d < WORD_RANGE && i < DEPTH && 2 * rest < WORD_RANGE && Progress(r, d, base, i, ratio, rest, true)
    ensures var x := 2 * rest;
      Progress(r, d, base, i + 1,
               if x < d then ratio else OrBit(ratio, DEPTH - (i + 1)),
               if x < d then x else x - d,
               true)
  {
    hide Pow2, OrBit, Rest, Fraction;
    Pow2Values();
    PassBit(i, ratio);
    ExactStep(r, d, i, DEPTH - (i + 1));
  }

  lemma OverflowPass(r: nat, d: nat, base: nat, i: nat, ratio: nat, rest: nat)
    requires r < d < WORD_RANGE && i < DEPTH && rest < d && 2 * rest >= WORD_RANGE
    requires Progress(r, d, base, i, ratio, rest, true)
    ensures (2 * rest) % WORD_RANGE < d
    ensures Progress(r, d, base, i + 1, ratio, (2 * rest) % WORD_RANGE, false)
  {
    hide Pow2, OrBit, Rest, Fraction;
    Pow2Values();
    PassBit(i, ratio);
    LostBit(r, d, i, DEPTH - (i + 1));
    assert (2 * rest) % WORD_RANGE == 2 * rest - WORD_RANGE < d;
    assert Rest(r, d, i) >= Pow2(31);
  }

  lemma ExactStep(r: nat, d: nat, i: nat, k: nat)
    requires r < d && k + i + 1 == DEPTH
    ensures var x := 2 * Rest(r, d, i); var bit := if x < d then 0 else 1;
      && Rest(r, d, i + 1) == x - bit * d
      && Fraction(r, d, i + 1) * Pow2(k) == Fraction(r, d, i) * (2 * Pow2(k)) + bit * Pow2(k)
  {
    hide Pow2, Rest, Fraction;
    DivisionStep(r, d, i);
    Weights(Fraction(r, d, i), if 2 * Rest(r, d, i) < d then 0 else 1, Pow2(k));
  }

  /** A bit lost to overflow is never made up by the bits after it. */
  lemma LostBit(r: nat, d: nat, i: nat, k: nat)
    requires r < d && k + i + 1 == DEPTH && d <= 2 * Rest(r, d, i)
    ensures Fraction(r, d, i) * (2 * Pow2(k)) + Pow2(k) <= Fraction(r, d, DEPTH)
  {
    ExactStep(r, d, i, k);
    hide Pow2, Rest, Fraction;
    FractionGrows(r, d, i + 1, DEPTH);
  }

  lemma RestBound(r: nat, d: nat, i: nat)
    requires d > 0
    ensures Rest(r, d, i) < d
  {
  }

  lemma LoopEnd(inRate: nat, outRate: nat, i: nat, ratio: nat, rest: nat, exact: bool)
    requires inRate < WORD_RANGE && 0 < outRate < WORD_RANGE && i <= DEPTH && (i == DEPTH || rest == 0)
    requires Progress(inRate % outRate, outRate, ((inRate / outRate) * SCALE) % WORD_RANGE, i, ratio, rest, exact)
    ensures ratio == ExactRatio(inRate, outRate) % WORD_RANGE <==> NoOverflow(inRate, outRate)
    ensures ratio <= ExactRatio(inRate, outRate) % WORD_RANGE
    ensures NoOverflow(inRate, outRate) ==> rest == Leftover(inRate, outRate)
    ensures inRate / outRate < 64 <==> ExactRatio(inRate, outRate) < WORD_RANGE
  {
    var r, d := inRate % outRate, outRate;
    var f := Fraction(r, d, DEPTH);
    Pow2Values();
    assert Pow2(0) == 1;
    hide Pow2, Rest, Fraction, ExactRatio, Leftover;
    FractionBound(r, d, DEPTH);
    RatioParts(inRate, outRate);
    TruncatedRatio(inRate / outRate, f);
    RestBound(r, d, i);
    if exact {
      if i < DEPTH {
        forall j | i <= j < DEPTH ensures Rest(r, d, j) == 0 {
          ZeroRest(r, d, i, j);
        }
        ZeroRest(r, d, i, DEPTH);
      }
    }
  }

  /** Above two to the 31 a doubling can overflow: here the loop returns zero instead of one half. */
  lemma OverflowExample()
    ensures !NoOverflow(0x8000_0000, 0xFFFF_FFFF)
  {
    Pow2Values();
    assert Pow2(0) == 1;
    assert Rest(0x8000_0000 % 0xFFFF_FFFF, 0xFFFF_FFFF, 0) == 0x8000_0000;
  }

  datatype Selection = NotSupported | Selected(preProc: nat, postProc: nat)

  function Times(a: nat, b: nat): nat { (a * b) % WORD_RANGE }

  /** Pre- and post-processing options from two rates, in 32-bit arithmetic. */
  function ProcessSelection(inRate: nat, outRate: nat): Selection {
    var op2 := || (Times(inRate, 15) > Times(outRate, 16) && outRate < 56000)
               || (inRate > 56000 && outRate < 56000);
    var op0 := Times(inRate, 23) < Times(outRate, 8);
    if Times(inRate, 8) > Times(129, outRate) || Times(inRate, 8) > Times(65, outRate) then NotSupported
    else
      var pre :=
        if Times(inRate, 8) > Times(33, outRate) then 2
        else if Times(inRate, 8) > Times(15, outRate) then (if inRate > 152000 then 2 else 1)
        else if inRate < 76000 then 0
        else if inRate > 152000 then 2
        else 1;
      Selected(pre, if op2 then 2 else if op0 then 0 else 1)
  }

  /** The pre-processing option a rate asks for by itself. */
  function Band(rate: nat): nat { if rate < 76000 then 0 else if rate > 152000 then 2 else 1 }

  /** The options that two rates ask for, over the integers. */
  function PreOf(inRate: nat, outRate: nat): nat {
    if 8 * inRate > 33 * outRate then 2
    else if 8 * inRate > 15 * outRate then (if inRate > 152000 then 2 else 1)
    else Band(inRate)
  }

  function PostOf(inRate: nat, outRate: nat): nat {
    if outRate < 56000 && (15 * inRate > 16 * outRate || inRate > 56000) then 2
    else LowPost(inRate, outRate)
  }

  function LowPost(inRate: nat, outRate: nat): nat { if 23 * inRate < 8 * outRate then 0 else 1 }

  /** The options are chosen from what the division leaves of the input rate, so while 129 times the
      output rate fits 32 bits no pair of rates is ever refused, and the input rate has no say beyond
      that remainder. */
  method SetIdealRatioConfig(inRate: nat, outRate: nat) returns (selection: Selection, ratio: nat)
    requires inRate < WORD_RANGE && 0 < outRate < WORD_RANGE
    ensures selection.Selected? ==>
      (ratio == ExactRatio(inRate, outRate) % WORD_RANGE <==> NoOverflow(inRate, outRate))
    ensures NoOverflow(inRate, outRate) ==> selection == ProcessSelection(Leftover(inRate, outRate), outRate)
    ensures 129 * outRate < WORD_RANGE ==>
      var rest := Leftover(inRate, outRate);
      && selection == Selected(Band(rest), LowPost(rest, outRate))
      && ratio == ExactRatio(inRate, outRate) % WORD_RANGE
    ensures 129 * outRate < WORD_RANGE && inRate / outRate < 64 ==> ratio == ExactRatio(inRate, outRate)
  {
    hide ProcessSelection, ExactRatio, NoOverflow, Leftover, Pow2;
    var rest;
    ratio, rest := LongDivision(inRate, outRate);
    Pow2Values();
    if outRate <= Pow2(31) {
      SmallRatesFit(inRate, outRate);
    }
    if 129 * outRate < WORD_RANGE {
      NeverRefused(rest, outRate);
    }
    selection := ProcessSelection(rest, outRate);
  }

  lemma NeverRefused(rest: nat, outRate: nat)
    requires rest < outRate && 129 * outRate < WORD_RANGE
    ensures ProcessSelection(rest, outRate) == Selected(Band(rest), LowPost(rest, outRate))
  {
    hide Times;
    Unwrapped(rest, 129);
    Unwrapped(outRate, 129);
  }

  /** The options of the rates themselves, and when the driver has chosen them: never for rates they
      refuse, and otherwise exactly when the remainder asks for the same two options. */
  lemma SelectionExact(inRate: nat, outRate: nat)
    requires outRate > 0 && 129 * outRate < WORD_RANGE && 23 * inRate < WORD_RANGE
    ensures ProcessSelection(inRate, outRate)
         == if 8 * inRate > 65 * outRate then NotSupported
            else Selected(PreOf(inRate, outRate), PostOf(inRate, outRate))
    ensures var rest := Leftover(inRate, outRate);
      ProcessSelection(rest, outRate) == ProcessSelection(inRate, outRate) <==>
      && 8 * inRate <= 65 * outRate
      && PreOf(inRate, outRate) == Band(rest) && PostOf(inRate, outRate) == LowPost(rest, outRate)
  {
    hide Leftover;
    NeverRefused(Leftover(inRate, outRate), outRate);
    RatesThemselves(inRate, outRate);
  }

  lemma RatesThemselves(inRate: nat, outRate: nat)
    requires outRate > 0 && 129 * outRate < WORD_RANGE && 23 * inRate < WORD_RANGE
    ensures ProcessSelection(inRate, outRate)
         == if 8 * inRate > 65 * outRate then NotSupported
            else Selected(PreOf(inRate, outRate), PostOf(inRate, outRate))
  {
    hide Times;
    Unwrapped(inRate, 23);
    Unwrapped(outRate, 129);
  }

  /** For output rates up to 76 kHz that means: neither filter is needed and the remainder lies on the
      same side as the input rate. */
  lemma SlowOutputExact(inRate: nat, outRate: nat)
    requires 0 < outRate <= 76000 && 23 * inRate < WORD_RANGE
    ensures var rest := Leftover(inRate, outRate);
      ProcessSelection(rest, outRate) == ProcessSelection(inRate, outRate) <==>
      && inRate < 76000 && 8 * inRate <= 15 * outRate
      && (outRate >= 56000 || (inRate <= 56000 && 15 * inRate <= 16 * outRate))
      && (23 * inRate < 8 * outRate <==> 23 * rest < 8 * outRate)
  {
    hide Leftover, ProcessSelection;
    SelectionExact(inRate, outRate);
  }

  lemma Unwrapped(a: nat, k: nat)
    requires k * a < WORD_RANGE
    ensures forall j: nat | j <= k :: Times(a, j) == j * a && Times(j, a) == j * a
  {
    forall j: nat | j <= k ensures Times(a, j) == j * a && Times(j, a) == j * a {
      MulLe(j, k, a);
    }
  }

  /** Rates that would be refused but are accepted: 192 kHz to 8 kHz leaves nothing. */
  lemma RefusalLost()
    ensures ProcessSelection(192000, 8000) == NotSupported
    ensures ProcessSelection(Leftover(192000, 8000), 8000) == Selected(0, 0)
  {
    assert Leftover(192000, 8000) == 0;
  }

  /** Rates that are supported and still get other options than their own. */
  lemma OptionsDiffer()
    ensures ProcessSelection(48000, 96000) == Selected(0, 1)
    ensures ProcessSelection(Leftover(48000, 96000), 96000) == Selected(0, 0)
    ensures ProcessSelection(96000, 96000) == Selected(1, 1)
    ensures ProcessSelection(Leftover(96000, 96000), 96000) == Selected(0, 0)
  {
    assert Leftover(48000, 96000) == 0 && Leftover(96000, 96000) == 0;
  }
}
