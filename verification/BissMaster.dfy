/** BiSS master: register data packing, clock codes and the split of a position word
    (drivers/biss/fsl_biss.c:60-103, 557-590, 1071-1074, 1368-1382). */
module BissMaster {
  import opened Bytes
  import opened Powers

  // ---- Register data ----

  /** Data registers RDATA1 to RDATA16; an array of registers starts with them and goes on behind. */
  const RDATA_WORDS: nat := 16

  /** b << (8 * j). */
  function Shifted(b: Byte, j: nat): bv32
    requires j < 4
  {
    if j == 0 then b as bv32
    else if j == 1 then (b as bv32) << 8
    else if j == 2 then (b as bv32) << 16
    else (b as bv32) << 24
  }

  /** (w >> (8 * j)) & 0xFF. */
  function Extracted(w: bv32, j: nat): Byte
    requires j < 4
  {
    if j == 0 then (w & 0xFF) as bv8
    else if j == 1 then ((w >> 8) & 0xFF) as bv8
    else if j == 2 then ((w >> 16) & 0xFF) as bv8
    else ((w >> 24) & 0xFF) as bv8
  }

  /** Byte k of the register data. */
  ghost function DataByte(rdata: seq<bv32>, k: nat): Byte
    requires k < 4 * |rdata|
  {
    StoreWord(rdata[k / 4])[k % 4]
  }

  /** Up to three leftover bytes, zero-extended to a word. */
  ghost function Leftover(s: seq<Byte>): bv32
    requires |s| < 4
  {
    LoadWord(s + Zeros(4 - |s|))
  }

  lemma LeftoverStep(s: seq<Byte>, b: Byte)
    requires |s| < 3
    ensures Leftover(s) | Shifted(b, |s|) == Leftover(s + [b])
  {
    hide LoadWord, Shifted;
    if |s| == 0 {
      assert s + Zeros(4) == [0, 0, 0, 0] && s + [b] + Zeros(3) == [b, 0, 0, 0];
      FirstByte(b);
    } else if |s| == 1 {
      assert s + Zeros(3) == [s[0], 0, 0, 0] && s + [b] + Zeros(2) == [s[0], b, 0, 0];
      SecondByte(s[0], b);
    } else {
      assert s + Zeros(2) == [s[0], s[1], 0, 0] && s + [b] + Zeros(1) == [s[0], s[1], b, 0];
      ThirdByte(s[0], s[1], b);
    }
  }

  lemma FirstByte(b: Byte)
    ensures LoadWord([0, 0, 0, 0]) | Shifted(b, 0) == LoadWord([b, 0, 0, 0])
  {
  }

  lemma SecondByte(a: Byte, b: Byte)
    ensures LoadWord([a, 0, 0, 0]) | Shifted(b, 1) == LoadWord([a, b, 0, 0])
  {
  }

  lemma ThirdByte(a0: Byte, a1: Byte, b: Byte)
    ensures LoadWord([a0, a1, 0, 0]) | Shifted(b, 2) == LoadWord([a0, a1, b, 0])
  {
  }

  /** Whole words first, then always one more word with what is left, zero-extended.  At the documented
      maximum of 64 bytes that word is the register behind the data, which becomes zero. */
  method RDataWrite(rdata: array<bv32>, regNum: nat, buf: array<Byte>)
    requires regNum / 4 < rdata.Length && regNum <= buf.Length
    modifies rdata
    ensures forall k | 0 <= k < regNum :: DataByte(rdata[..], k) == buf[k]
    ensures forall k | regNum <= k < 4 * (regNum / 4 + 1) :: DataByte(rdata[..], k) == 0
    ensures rdata[regNum / 4 + 1..] == old(rdata[regNum / 4 + 1..])
    ensures regNum < 4 * RDATA_WORDS <= 4 * rdata.Length ==> rdata[RDATA_WORDS..] == old(rdata[RDATA_WORDS..])
    ensures regNum == 4 * RDATA_WORDS ==> rdata[RDATA_WORDS] == 0
  {
    hide LoadWord, StoreWord, Shifted, DataByte, Leftover;
    var blocks, rest := regNum / 4, regNum % 4;
    ghost var bytes, words := buf[..], rdata[..];
    WriteBlocks(rdata, blocks, buf);
    ghost var now := rdata[..];
    ghost var tail := bytes[4 * blocks..regNum];
    var data: bv32 := 0;
    var idx := 0;
    NothingLeft();
    assert tail[..0] == [];
    while idx < rest
      invariant idx <= rest && data == Leftover(tail[..idx]) && rdata[..] == now
    {
      LeftoverStep(tail[..idx], buf[4 * blocks + idx]);
      assert tail[..idx + 1] == tail[..idx] + [buf[4 * blocks + idx]];
      data := data | Shifted(buf[4 * blocks + idx], idx);
      idx := idx + 1;
    }
    assert tail[..idx] == tail;
    rdata[blocks] := data;
    assert rdata[..] == now[blocks := data];
    forall k | 0 <= k < 4 * (blocks + 1)
      ensures DataByte(rdata[..], k) == if k < regNum then bytes[k] else 0
    {
      WrittenByte(rdata[..], bytes, regNum, k);
    }
    assert rdata[blocks + 1..] == now[blocks..][1..] == words[blocks + 1..];
    if regNum < 4 * RDATA_WORDS <= 4 * rdata.Length {
      var from := RDATA_WORDS - (blocks + 1);
      assert rdata[RDATA_WORDS..] == rdata[blocks + 1..][from..] && words[RDATA_WORDS..] == words[blocks + 1..][from..];
    }
    assert tail == [] ==> data == 0;
  }

  method WriteBlocks(rdata: array<bv32>, blocks: nat, buf: array<Byte>)
    requires blocks < rdata.Length && 4 * blocks <= buf.Length
    modifies rdata
    ensures forall i | 0 <= i < blocks :: rdata[..][i] == LoadWord(buf[..][4 * i..4 * i + 4])
    ensures rdata[blocks..] == old(rdata[blocks..])
  {
    hide LoadWord;
    ghost var bytes := buf[..];
    var idx := 0;
    while idx < blocks
      invariant idx <= blocks
      invariant forall i | 0 <= i < idx :: rdata[i] == LoadWord(bytes[4 * i..4 * i + 4])
      invariant rdata[blocks..] == old(rdata[blocks..])
    {
      assert buf[4 * idx..4 * idx + 4] == bytes[4 * idx..4 * idx + 4];
      rdata[idx] := LoadWord(buf[4 * idx..4 * idx + 4]);
      idx := idx + 1;
    }
  }

  lemma NothingLeft()
    ensures Leftover([]) == 0
  {
    assert [] + Zeros(4) == [0, 0, 0, 0];
  }

  lemma WrittenByte(rdata: seq<bv32>, buf: seq<Byte>, regNum: nat, k: nat)
    requires regNum / 4 < |rdata| && regNum <= |buf| && k < 4 * (regNum / 4 + 1)
    requires forall i | 0 <= i < regNum / 4 :: rdata[i] == LoadWord(buf[4 * i..4 * i + 4])
    requires rdata[regNum / 4] == Leftover(buf[4 * (regNum / 4)..regNum])
    ensures DataByte(rdata, k) == if k < regNum then buf[k] else 0
  {
    hide LoadWord, StoreWord;
    var i := k / 4;
    if i < regNum / 4 {
      StoreLoad(buf[4 * i..4 * i + 4]);
    } else {
      var tail := buf[4 * i..regNum];
      StoreLoad(tail + Zeros(4 - |tail|));
    }
  }

  method RDataRead(rdata: array<bv32>, regNum: nat, buf: array<Byte>)
    requires regNum <= 4 * rdata.Length && regNum <= buf.Length
    modifies buf
    ensures forall k | 0 <= k < regNum :: buf[k] == DataByte(rdata[..], k)
    ensures buf[regNum..] == old(buf[regNum..])
  {
    hide StoreWord, Extracted;
    var idx := 0;
    while idx < regNum
      invariant idx <= regNum
      invariant forall k | 0 <= k < idx :: buf[k] == DataByte(rdata[..], k)
      invariant buf[regNum..] == old(buf[regNum..])
    {
      ExtractedIsStored(rdata[idx / 4], idx % 4);
      buf[idx] := Extracted(rdata[idx / 4], idx % 4);
      idx := idx + 1;
    }
  }

  lemma ExtractedIsStored(w: bv32, j: nat)
    requires j < 4
    ensures Extracted(w, j) == StoreWord(w)[j]
  {
  }

  /** Reading back what was written returns the same bytes, for every count. */
  method WriteThenRead(rdata: array<bv32>, regNum: nat, buf: array<Byte>, back: array<Byte>)
    requires regNum / 4 < rdata.Length && regNum <= buf.Length && regNum <= back.Length
    modifies rdata, back
    ensures back[..regNum] == old(buf[..regNum])
  {
    hide DataByte;
    RDataWrite(rdata, regNum, buf);
    RDataRead(rdata, regNum, back);
  }

  // ---- Clock codes ----

  const MIN_MA_FREQ: nat := 80000
  const MAX_SYS_CLK_FREQ: nat := 25000000
  const AGS_MIN: nat := 0x7C

  datatype Code = Code(value: nat) | OutOfRange | InvalidArgument

  /** Fast codes are 0 to 16 and slow codes 17 to 30, so a code tells its branch. */
  function CalculateMaDiv(srcClk: nat, maFreq: nat): (r: Code)
    ensures r.Code? && srcClk <= MAX_SYS_CLK_FREQ ==>
      && r.value <= 30
      && (r.value <= 16 <==> maFreq >= srcClk / 2 / 17)
    ensures r.Code? && r.value <= 16 && maFreq >= srcClk / 2 / 17 ==>
      (r.value + 1) * maFreq <= srcClk / 2 < (r.value + 2) * maFreq
    ensures r.Code? && maFreq < srcClk / 2 / 17 ==>
      r.value >= 17 && 10 * (r.value - 15) * maFreq <= srcClk / 2 < 10 * (r.value - 14) * maFreq
    ensures r == OutOfRange <==> maFreq < MIN_MA_FREQ || maFreq > MAX_SYS_CLK_FREQ
    ensures r == InvalidArgument <==>
      && MIN_MA_FREQ <= maFreq <= MAX_SYS_CLK_FREQ
      && (maFreq > srcClk / 2 || srcClk / 2 / 20 < maFreq < srcClk / 2 / 17)
  {
    var base := srcClk / 2;
    if maFreq < MIN_MA_FREQ || maFreq > MAX_SYS_CLK_FREQ then OutOfRange
    else if maFreq > base then InvalidArgument
    else if maFreq >= base / 17 then FastQuotient(base, maFreq, 17); Bracket(base, maFreq); Code(base / maFreq - 1)
    else if maFreq <= base / 20 then
      SlowQuotient(base, maFreq);
      ScaledBracket(base, maFreq, 10);
      Code(base / maFreq / 10 + 15)
    else InvalidArgument
  }

  /** The quotient is the last multiple that does not exceed the clock. */
  lemma Bracket(clk: nat, freq: nat)
    requires freq > 0
    ensures (clk / freq) * freq <= clk < (clk / freq + 1) * freq
  {
    DivModEquation(clk, freq);
    Distribute(clk / freq, 1, freq);
  }

  lemma ScaledBracket(clk: nat, freq: nat, k: nat)
    requires freq > 0 && k > 0
    ensures var q := clk / freq / k; k * q * freq <= clk < k * (q + 1) * freq
  {
    NestedDivision(clk, freq, k);
    Bracket(clk, freq * k);
    var q := clk / freq / k;
    Regroup(k, q, freq);
    Regroup(k, q + 1, freq);
    Turned(q, freq, k);
    Turned(q + 1, freq, k);
  }

  lemma Turned(q: nat, freq: nat, k: nat)
    ensures q * (freq * k) == k * (q * freq)
  {
  }

  lemma FastQuotient(base: nat, freq: nat, k: nat)
    requires 0 < k < freq <= base && freq >= base / k
    ensures 1 <= base / freq <= k
  {
    DivModEquation(base, freq);
    DivModEquation(base, k);
    BelowNext(base / k, base % k, freq, k);
    MulLtCancel(base / freq, k + 1, freq);
  }

  lemma BelowNext(q: nat, r: nat, freq: nat, k: nat)
    requires q <= freq && r < k < freq
    ensures q * k + r < (k + 1) * freq
  {
    MulLe(q, freq, k);
    Distribute(k, 1, freq);
  }

  lemma SlowQuotient(base: nat, freq: nat)
    requires freq >= MIN_MA_FREQ && freq <= base / 20
    ensures base / freq >= 20
    ensures base <= MAX_SYS_CLK_FREQ / 2 ==> base / freq <= 156
  {
    DivModEquation(base, freq);
    MulLe(freq, base / 20, 20);
    assert 20 * freq <= base < (base / freq + 1) * freq by { Distribute(base / freq, 1, freq); }
    MulLtCancel(20, base / freq + 1, freq);
    if base <= MAX_SYS_CLK_FREQ / 2 {
      assert (base / freq) * freq < 157 * freq;
      MulLtCancel(base / freq, 157, freq);
    }
  }

  datatype AgsCode = AgsCode(value: int) | DividedByZero

  /** A frequency of zero is divided by exactly when it passes one of the two limits, that is, for slow
      source clocks.  A request above a twentieth of the source clock wraps to -1.  The rounded limits
      let low frequencies out of a branch's codes exactly when its quotient is too large, which never
      happens from 128 Hz on; there 0x7C is the fallback alone. */
  function CalculateAgsDiv(srcClk: nat, agsFreq: nat): (code: AgsCode)
    ensures code == DividedByZero <==> agsFreq == 0 && srcClk < 80000
    ensures agsFreq == 0 && srcClk >= 80000 ==> code == AgsCode(AGS_MIN)
    ensures code == AgsCode(-1) <==> agsFreq > srcClk / 20
    ensures 0 < agsFreq && srcClk / 20 / 124 <= agsFreq <= srcClk / 20 ==>
      code.value >= 0 && (code.value <= 0x7B <==> srcClk / 20 < 125 * agsFreq)
    ensures 0 < agsFreq && srcClk / 625 / 128 <= agsFreq < srcClk / 20 / 124 ==>
      code.value >= 130 && (code.value <= 255 <==> srcClk / 625 < 129 * agsFreq)
    ensures 0 < agsFreq && srcClk / 20 / 124 <= agsFreq ==>
      code.value >= -1 && 20 * (code.value + 1) * agsFreq <= srcClk < 20 * (code.value + 2) * agsFreq
    ensures 0 < agsFreq && srcClk / 625 / 128 <= agsFreq < srcClk / 20 / 124 ==>
      625 * (code.value - 127) * agsFreq <= srcClk < 625 * (code.value - 126) * agsFreq
    ensures 128 <= agsFreq <= srcClk / 20 ==>
      && (0 <= code.value <= 0x7B <==> agsFreq >= srcClk / 20 / 124)
      && (130 <= code.value <= 255 <==> srcClk / 625 / 128 <= agsFreq < srcClk / 20 / 124)
      && (code.value == AGS_MIN <==> agsFreq < srcClk / 20 / 124 && agsFreq < srcClk / 625 / 128)
  {
    if agsFreq >= srcClk / 20 / 124 then
      if agsFreq == 0 then DividedByZero else
        AgsQuotient(srcClk, agsFreq);
        ScaledBracket(srcClk, agsFreq, 20);
        AgsCode(srcClk / agsFreq / 20 - 1)
    else if agsFreq >= srcClk / 625 / 128 then
      if agsFreq == 0 then DividedByZero else
        SlowAgs(srcClk, agsFreq);
        ScaledBracket(srcClk, agsFreq, 625);
        AgsCode(srcClk / agsFreq / 625 + 127)
    else AgsCode(AGS_MIN)
  }

  /** A frequency below 128 Hz whose code belongs to neither range. */
  lemma AgsCodeOutOfRange()
    ensures CalculateAgsDiv(4940, 1) == AgsCode(246) && CalculateAgsDiv(159374, 1) == AgsCode(381)
  {
  }

  lemma QuotientBound(a: nat, d: nat, k: nat)
    requires d > 0
    ensures a / d <= k <==> a < (k + 1) * d
  {
    DivModEquation(a, d);
    if a / d <= k {
      MulLe(a / d + 1, k + 1, d);
      Distribute(a / d, 1, d);
    } else {
      MulLe(k + 1, a / d, d);
    }
  }

  lemma AgsQuotient(srcClk: nat, freq: nat)
    requires freq > 0
    ensures srcClk / freq / 20 == 0 <==> freq > srcClk / 20
    ensures srcClk / freq / 20 <= 124 <==> srcClk / 20 < 125 * freq
    ensures 128 <= freq <= srcClk / 20 && freq >= srcClk / 20 / 124 ==> srcClk / freq / 20 <= 124
  {
    DivisionsCommute(srcClk, freq, 20);
    ScaledQuotient(srcClk / 20, freq);
  }

  lemma ScaledQuotient(scaled: nat, freq: nat)
    requires freq > 0
    ensures scaled / freq == 0 <==> freq > scaled
    ensures scaled / freq <= 124 <==> scaled < 125 * freq
    ensures freq >= 128 && freq >= scaled / 124 ==> scaled < 125 * freq
  {
    QuotientBound(scaled, freq, 0);
    QuotientBound(scaled, freq, 124);
  }

  lemma SlowAgs(srcClk: nat, freq: nat)
    requires 0 < freq < srcClk / 20 / 124 && freq >= srcClk / 625 / 128
    ensures 3 <= srcClk / freq / 625
    ensures srcClk / freq / 625 <= 128 <==> srcClk / 625 < 129 * freq
    ensures freq >= 128 ==> srcClk / freq / 625 <= 128
  {
    QuotientBound(srcClk, freq, 2479);
    DivisionsCommute(srcClk, freq, 625);
    QuotientBound(srcClk / 625, freq, 128);
  }

  /** Dividing by one number and then the other gives the same either way. */
  lemma DivisionsCommute(a: nat, d: nat, k: nat)
    requires d > 0 && k > 0
    ensures a / d / k == a / k / d
  {
    NestedDivision(a, d, k);
    NestedDivision(a, k, d);
    assert d * k == k * d;
  }

  lemma NestedDivision(a: nat, d: nat, k: nat)
    requires d > 0 && k > 0
    ensures d * k > 0 && a / d / k == a / (d * k)
  {
    var q := a / d;
    var x, s, t := q / k, q % k, a % d;
    DivModEquation(a, d);
    DivModEquation(q, k);
    Distribute(x * k, s, d);
    MulLe(s + 1, k, d);
    Distribute(s, 1, d);
    assert (x * k) * d == x * (d * k);
    assert s * d + t < d * k;
    MulLt(0, d, k);
    DivModUnique(a, d * k, x, s * d + t);
  }

  // ---- Position words ----

  /** The lengths the driver derives: what neither the multiturn nor the status bits take. */
  datatype Slave = Slave(dataLen: nat, mtLen: nat, errWarLen: nat)

  predicate Fits(s: Slave) { s.dataLen < 64 && s.mtLen + s.errWarLen <= s.dataLen }

  function StLen(s: Slave): nat
    requires Fits(s)
  {
    s.dataLen - s.mtLen - s.errWarLen
  }

  /** (word >> (stLen + errWarLen)) & mtMask, a mask of n ones being a remainder modulo two to the n. */
  function MultiTurn(s: Slave, word: nat): nat
    requires Fits(s)
  {
    word / Pow2(StLen(s) + s.errWarLen) % Pow2(s.mtLen)
  }

  function SingleTurn(s: Slave, word: nat): nat
    requires Fits(s)
  {
    word / Pow2(s.errWarLen) % Pow2(StLen(s))
  }

  function StatusBits(s: Slave, word: nat): nat { word % Pow2(s.errWarLen) }

  /** Every part stays in the bits that the lengths leave it. */
  lemma PartsBounded(s: Slave, word: nat)
    requires Fits(s)
    ensures MultiTurn(s, word) < Pow2(s.mtLen)
    ensures SingleTurn(s, word) < Pow2(s.dataLen - s.mtLen - s.errWarLen)
    ensures StatusBits(s, word) < Pow2(s.errWarLen)
  {
    hide Pow2;
  }

  /** A word put together from parts gives the parts back. */
  lemma PartsReadBack(s: Slave, multi: nat, single: nat, status: nat)
    requires Fits(s) && multi < Pow2(s.mtLen) && status < Pow2(s.errWarLen)
    requires single < Pow2(s.dataLen - s.mtLen - s.errWarLen)
    ensures var word := (multi * Pow2(s.dataLen - s.mtLen - s.errWarLen) + single) * Pow2(s.errWarLen) + status;
      MultiTurn(s, word) == multi && SingleTurn(s, word) == single && StatusBits(s, word) == status
  {
    hide Pow2;
    var ew, st, mt := Pow2(s.errWarLen), Pow2(StLen(s)), Pow2(s.mtLen);
    var upper := multi * st + single;
    var word := upper * ew + status;
    Pow2Add(StLen(s), s.errWarLen);
    DivModUnique(word, ew, upper, status);
    DivModUnique(upper, st, multi, single);
    NestedDivision(word, ew, st);
    Commute(st, ew);
    DivModUnique(multi, mt, 0, multi);
  }

  lemma Commute(a: nat, b: nat)
    ensures a * b == b * a
  {
  }

  /** Multiturn, singleturn and status bits rebuild every word of the data length. */
  lemma PositionRebuilds(s: Slave, word: nat)
    requires Fits(s) && word < Pow2(s.dataLen)
    ensures word == MultiTurn(s, word) * Pow2(StLen(s) + s.errWarLen)
                    + SingleTurn(s, word) * Pow2(s.errWarLen) + StatusBits(s, word)
  {
    hide Pow2;
    Pow2Add(StLen(s), s.errWarLen);
    Pow2Add(s.mtLen, StLen(s) + s.errWarLen);
    assert s.mtLen + (StLen(s) + s.errWarLen) == s.dataLen;
    ThreeParts(word, Pow2(s.errWarLen), Pow2(StLen(s)), Pow2(s.mtLen));
  }

  lemma ThreeParts(word: nat, ew: nat, st: nat, mt: nat)
    requires ew > 0 && st > 0 && mt > 0 && st * ew > 0 && word < mt * (st * ew)
    ensures word == word / (st * ew) % mt * (st * ew) + word / ew % st * ew + word % ew
  {
    var upper, both := word / ew, st * ew;
    NestedDivision(word, ew, st);
    assert ew * st == both;
    var top := word / both;
    DivModEquation(word, both);
    MulLtCancel(top, mt, both);
    DivModUnique(top, mt, 0, top);
    DivModEquation(word, ew);
    DivModEquation(upper, st);
    Recombined(top, upper % st, st, ew);
  }

  lemma Recombined(top: nat, mid: nat, st: nat, ew: nat)
    ensures (top * st + mid) * ew == top * (st * ew) + mid * ew
  {
    Distribute(top * st, mid, ew);
    Regroup(top, st, ew);
  }

  lemma Regroup(a: nat, b: nat, c: nat)
    ensures (a * b) * c == a * (b * c)
  {
  }
}
