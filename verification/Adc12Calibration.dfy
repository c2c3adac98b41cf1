/** The ADC12 calibration check in unsigned arithmetic against its documented limit table
    (drivers/adc12/fsl_adc12.c:18-22, 40-50, 95-128). */
module Adc12Calibration {
  import opened Bytes

  function Minus(a: nat, b: nat): (r: nat)
    requires a < WORD_RANGE && b < WORD_RANGE
    ensures r < WORD_RANGE
  {
    if a >= b then a - b else a - b + WORD_RANGE
  }

  function Plus(a: nat, b: nat): (r: nat)
    requires a < WORD_RANGE && b < WORD_RANGE
    ensures r < WORD_RANGE
  {
    if a + b < WORD_RANGE then a + b else a + b - WORD_RANGE
  }

  /** A raw field of the given half range as a signed number, in two's complement. */
  function Signed(raw: nat, half: nat): (r: int)
    ensures raw < 2 * half ==> 0 <= r + half && r < half && (r == raw || r == raw - 2 * half)
  {
    if raw >= half then raw - 2 * half else raw
  }

  /** The limit table in the comment of the driver, over the integers. */
  predicate WithinTable(ofs: int, clp9: int, clpx: int, clps: int, clp0: int, clp1: int, clp2: int, clp3: int) {
    && -48 <= ofs <= 22 && -12 <= clp9 <= 20 && -16 <= clpx <= 16 && 30 <= clps <= 120
    && clps - 14 <= clp0 <= clps + 14
    && 2 * clp0 - 16 <= clp1 <= 2 * clp0 + 16
    && 2 * clp1 - 26 - 20 <= clp2 <= 2 * clp1 - 26 + 20
    && 2 * clp2 - 36 <= clp3 <= 2 * clp2 + 36
  }

  /** The check succeeds exactly when the table holds and the two lower limits that would be negative
      in the table have not wrapped around. */
  function CalibrationSucceeds(rawOfs: nat, rawClp9: nat, rawClpx: nat,
                               clps: nat, clp0: nat, clp1: nat, clp2: nat, clp3: nat): (ok: bool)
    requires rawOfs < 0x1_0000 && rawClp9 < 0x80 && rawClpx < 0x80
    requires clps < WORD_RANGE && clp0 < WORD_RANGE && clp1 < WORD_RANGE && clp2 < WORD_RANGE && clp3 < WORD_RANGE
    ensures ok <==>
      && WithinTable(Signed(rawOfs, 0x8000), Signed(rawClp9, 0x40), Signed(rawClpx, 0x40), clps, clp0, clp1, clp2, clp3)
      && clp1 >= 23 && clp2 >= 18
  {
    var typ1, typ2, typ3 := Plus(clp0, clp0), Minus(Plus(clp1, clp1), 26), Plus(clp2, clp2);
    var ofs, clp9, clpx := Signed(rawOfs, 0x8000), Signed(rawClp9, 0x40), Signed(rawClpx, 0x40);
    !(ofs < -48 || ofs > 22 || clp9 < -12 || clp9 > 20 || clpx < -16 || clpx > 16 || clps < 30 || clps > 120
      || clp0 < Minus(clps, 14) || clp0 > Plus(clps, 14) || clp1 < Minus(typ1, 16) || clp1 > Plus(typ1, 16)
      || clp2 < Minus(typ2, 20) || clp2 > Plus(typ2, 20) || clp3 < Minus(typ3, 36) || clp3 > Plus(typ3, 36))
  }

  /** Register values inside the table that the wrap-around refuses. */
  lemma WrappedLimitRefuses()
    ensures WithinTable(0, 0, 0, 30, 16, 22, 10, 10)
    ensures !CalibrationSucceeds(0, 0, 0, 30, 16, 22, 10, 10)
  {
  }
}
