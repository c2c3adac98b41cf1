/** The blocking ASRC conversion against two hardware FIFOs (drivers/asrc/fsl_asrc.c:110-142,
    235-295, 665-730, 776-796).  An array is memory from the start of a buffer on; the buffer is its
    first bytes, as many as the transfer says. */
module AsrcTransfer {
  import opened Bytes
  import opened Powers
  import opened AsrcLayout

  const ADDRESS_MAX: nat := 0xFFFF_FFFF

  // ---- Sample formats ----

  datatype Width = Bits24 | Bits16 | Bits8
  datatype Format = Format(width: Width, msbAligned: bool)

  /** Bytes one input sample takes in memory, and the bits of the loaded word that belong to it. */
  function InputWidth(f: Format): (w: nat)
    ensures 1 <= w <= 4
  {
    match f.width
    case Bits8 => if f.msbAligned then 2 else 1
    case Bits16 => if f.msbAligned then 4 else 2
    case Bits24 => if f.msbAligned then 4 else 3
  }

  function InputMask(f: Format): bv32 {
    match f.width
    case Bits8 => if f.msbAligned then 0xFF00 else 0xFF
    case Bits16 => if f.msbAligned then 0xFFFF_0000 else 0xFFFF
    case Bits24 => if f.msbAligned then 0xFFFF_FF00 else 0xFF_FFFF
  }

  /** A 16-bit output sample has a half word to itself unless it sits in the upper half of a word. */
  function OutputWidth(f: Format): (w: nat)
    ensures w == 2 || w == 4
    ensures w == 2 <==> f == Format(Bits16, false)
  {
    if f.width == Bits16 && !f.msbAligned then 2 else 4
  }

  function MaskedLoad(b: seq<Byte>, f: Format): bv32
    requires |b| == 4
  {
    LoadWord(b) & InputMask(f)
  }

  /** Sample k of a buffer: the masked word of its own bytes. */
  function Sample(buffer: seq<Byte>, f: Format, k: nat): bv32
    requires (k + 1) * InputWidth(f) <= |buffer|
  {
    var w := InputWidth(f);
    Distribute(k, 1, w);
    MaskedLoad(buffer[k * w..k * w + w] + Zeros(4 - w), f)
  }

  /** The driver loads whole words, reaching up to three bytes behind the last sample; the mask drops
      whatever is there. */
  lemma OwnBytes(b: seq<Byte>, f: Format)
    requires |b| == 4
    ensures MaskedLoad(b, f) == MaskedLoad(b[..InputWidth(f)] + Zeros(4 - InputWidth(f)), f)
  {
    hide MaskedLoad;
    var w := InputWidth(f);
    var own := b[..w] + Zeros(4 - w);
    assert b == [b[0], b[1], b[2], b[3]];
    if w == 4 {
      assert own == b;
    } else if w == 3 {
      assert own == [b[0], b[1], b[2], 0];
      DropTop(b[0], b[1], b[2], b[3], f);
    } else if w == 2 {
      assert own == [b[0], b[1], 0, 0];
      DropUpper(b[0], b[1], b[2], b[3], f);
    } else {
      assert own == [b[0], 0, 0, 0];
      DropThree(b[0], b[1], b[2], b[3], f);
    }
  }

  function Masked(x0: bv32, x1: bv32, x2: bv32, x3: bv32, m: bv32): bv32 {
    (x0 | (x1 << 8) | (x2 << 16) | (x3 << 24)) & m
  }

  lemma MaskedBytes(b0: Byte, b1: Byte, b2: Byte, b3: Byte, f: Format)
    ensures MaskedLoad([b0, b1, b2, b3], f)
         == Masked(b0 as bv32, b1 as bv32, b2 as bv32, b3 as bv32, InputMask(f))
  {
  }

  lemma DropTop(b0: Byte, b1: Byte, b2: Byte, b3: Byte, f: Format)
    requires InputWidth(f) == 3
    ensures MaskedLoad([b0, b1, b2, b3], f) == MaskedLoad([b0, b1, b2, 0], f)
  {
    hide MaskedLoad, Masked;
    MaskedBytes(b0, b1, b2, b3, f);
    MaskedBytes(b0, b1, b2, 0, f);
    KeepThree(b0 as bv32, b1 as bv32, b2 as bv32, b3 as bv32);
  }

  lemma DropUpper(b0: Byte, b1: Byte, b2: Byte, b3: Byte, f: Format)
    requires InputWidth(f) == 2
    ensures MaskedLoad([b0, b1, b2, b3], f) == MaskedLoad([b0, b1, 0, 0], f)
  {
    hide MaskedLoad, Masked;
    MaskedBytes(b0, b1, b2, b3, f);
    MaskedBytes(b0, b1, 0, 0, f);
    KeepTwo(b0 as bv32, b1 as bv32, b2 as bv32, b3 as bv32);
    KeepSecond(b0 as bv32, b1 as bv32, b2 as bv32, b3 as bv32);
  }

  lemma DropThree(b0: Byte, b1: Byte, b2: Byte, b3: Byte, f: Format)
    requires InputWidth(f) == 1
    ensures MaskedLoad([b0, b1, b2, b3], f) == MaskedLoad([b0, 0, 0, 0], f)
  {
    hide MaskedLoad, Masked;
    MaskedBytes(b0, b1, b2, b3, f);
    MaskedBytes(b0, 0, 0, 0, f);
    KeepOne(b0 as bv32, b1 as bv32, b2 as bv32, b3 as bv32);
  }

  lemma KeepThree(x0: bv32, x1: bv32, x2: bv32, x3: bv32)
    ensures Masked(x0, x1, x2, x3, 0xFF_FFFF) == Masked(x0, x1, x2, 0, 0xFF_FFFF)
  {
  }

  lemma KeepTwo(x0: bv32, x1: bv32, x2: bv32, x3: bv32)
    ensures Masked(x0, x1, x2, x3, 0xFFFF) == Masked(x0, x1, 0, 0, 0xFFFF)
  {
  }

  lemma KeepSecond(x0: bv32, x1: bv32, x2: bv32, x3: bv32)
    ensures Masked(x0, x1, x2, x3, 0xFF00) == Masked(x0, x1, 0, 0, 0xFF00)
  {
  }

  lemma KeepOne(x0: bv32, x1: bv32, x2: bv32, x3: bv32)
    ensures Masked(x0, x1, x2, x3, 0xFF) == Masked(x0, 0, 0, 0, 0xFF)
  {
  }

  lemma Low8(b0: Byte, b1: Byte, b2: Byte, b3: Byte)
    ensures MaskedLoad([b0, b1, b2, b3], Format(Bits8, false)) == LoadWord([b0, 0, 0, 0])
  {
    hide Masked, LoadWord;
    MaskedIs(b0, b1, b2, b3, 0xFF);
    LoadIs(b0, 0, 0, 0);
    Select8(b0 as bv32, b1 as bv32, b2 as bv32, b3 as bv32);
  }

  lemma High8(b0: Byte, b1: Byte, b2: Byte, b3: Byte)
    ensures MaskedLoad([b0, b1, b2, b3], Format(Bits8, true)) == LoadWord([0, b1, 0, 0])
  {
    hide Masked, LoadWord;
    MaskedIs(b0, b1, b2, b3, 0xFF00);
    LoadIs(0, b1, 0, 0);
    Select8(b0 as bv32, b1 as bv32, b2 as bv32, b3 as bv32);
  }

  lemma Low16(b0: Byte, b1: Byte, b2: Byte, b3: Byte)
    ensures MaskedLoad([b0, b1, b2, b3], Format(Bits16, false)) == LoadWord([b0, b1, 0, 0])
  {
    hide Masked, LoadWord;
    MaskedIs(b0, b1, b2, b3, 0xFFFF);
    LoadIs(b0, b1, 0, 0);
    Select16(b0 as bv32, b1 as bv32, b2 as bv32, b3 as bv32);
  }

  lemma High16(b0: Byte, b1: Byte, b2: Byte, b3: Byte)
    ensures MaskedLoad([b0, b1, b2, b3], Format(Bits16, true)) == LoadWord([0, 0, b2, b3])
  {
    hide Masked, LoadWord;
    MaskedIs(b0, b1, b2, b3, 0xFFFF_0000);
    LoadIs(0, 0, b2, b3);
    Select16(b0 as bv32, b1 as bv32, b2 as bv32, b3 as bv32);
  }

  lemma Low24(b0: Byte, b1: Byte, b2: Byte, b3: Byte)
    ensures MaskedLoad([b0, b1, b2, b3], Format(Bits24, false)) == LoadWord([b0, b1, b2, 0])
  {
    hide Masked, LoadWord;
    MaskedIs(b0, b1, b2, b3, 0xFF_FFFF);
    LoadIs(b0, b1, b2, 0);
    Select24(b0 as bv32, b1 as bv32, b2 as bv32, b3 as bv32);
  }

  lemma High24(b0: Byte, b1: Byte, b2: Byte, b3: Byte)
    ensures MaskedLoad([b0, b1, b2, b3], Format(Bits24, true)) == LoadWord([0, b1, b2, b3])
  {
    hide Masked, LoadWord;
    MaskedIs(b0, b1, b2, b3, 0xFFFF_FF00);
    LoadIs(0, b1, b2, b3);
    Select24(b0 as bv32, b1 as bv32, b2 as bv32, b3 as bv32);
  }

  lemma MaskedIs(b0: Byte, b1: Byte, b2: Byte, b3: Byte, m: bv32)
    ensures LoadWord([b0, b1, b2, b3]) & m == Masked(b0 as bv32, b1 as bv32, b2 as bv32, b3 as bv32, m)
  {
  }

  const ALL: bv32 := 0xFFFF_FFFF

  lemma LoadIs(b0: Byte, b1: Byte, b2: Byte, b3: Byte)
    ensures LoadWord([b0, b1, b2, b3]) == Masked(b0 as bv32, b1 as bv32, b2 as bv32, b3 as bv32, ALL)
  {
  }

  lemma Select8(x0: bv32, x1: bv32, x2: bv32, x3: bv32)
    requires x0 < 0x100 && x1 < 0x100 && x2 < 0x100 && x3 < 0x100
    ensures Masked(x0, x1, x2, x3, 0xFF) == Masked(x0, 0, 0, 0, ALL)
    ensures Masked(x0, x1, x2, x3, 0xFF00) == Masked(0, x1, 0, 0, ALL)
  {
  }

  lemma Select16(x0: bv32, x1: bv32, x2: bv32, x3: bv32)
    requires x0 < 0x100 && x1 < 0x100 && x2 < 0x100 && x3 < 0x100
    ensures Masked(x0, x1, x2, x3, 0xFFFF) == Masked(x0, x1, 0, 0, ALL)
    ensures Masked(x0, x1, x2, x3, 0xFFFF_0000) == Masked(0, 0, x2, x3, ALL)
  {
  }

  lemma Select24(x0: bv32, x1: bv32, x2: bv32, x3: bv32)
    requires x0 < 0x100 && x1 < 0x100 && x2 < 0x100 && x3 < 0x100
    ensures Masked(x0, x1, x2, x3, 0xFF_FFFF) == Masked(x0, x1, x2, 0, ALL)
    ensures Masked(x0, x1, x2, x3, 0xFFFF_FF00) == Masked(0, x1, x2, x3, ALL)
  {
  }

  /** Which of a sample's own bytes reach the FIFO, from the lowest byte of the word up: all of them when
      aligned low; when aligned high without the lowest one (8 and 24 bits) or two (16 bits). */
  lemma SampleBytes(buffer: seq<Byte>, f: Format, k: nat)
    requires (k + 1) * InputWidth(f) <= |buffer|
    ensures f == Format(Bits8, false) ==> k + 1 <= |buffer| && StoreWord(Sample(buffer, f, k)) == [buffer[k], 0, 0, 0]
    ensures f == Format(Bits8, true) ==>
      2 * k + 2 <= |buffer|
      && StoreWord(Sample(buffer, f, k)) == [0, buffer[2 * k + 1], 0, 0]
    ensures f == Format(Bits16, false) ==>
      2 * k + 2 <= |buffer|
      && StoreWord(Sample(buffer, f, k)) == [buffer[2 * k], buffer[2 * k + 1], 0, 0]
    ensures f == Format(Bits16, true) ==>
      4 * k + 4 <= |buffer|
      && StoreWord(Sample(buffer, f, k)) == [0, 0, buffer[4 * k + 2], buffer[4 * k + 3]]
    ensures f == Format(Bits24, false) ==>
      3 * k + 3 <= |buffer|
      && StoreWord(Sample(buffer, f, k)) == [buffer[3 * k], buffer[3 * k + 1], buffer[3 * k + 2], 0]
    ensures f == Format(Bits24, true) ==>
      4 * k + 4 <= |buffer|
      && StoreWord(Sample(buffer, f, k)) == [0, buffer[4 * k + 1], buffer[4 * k + 2], buffer[4 * k + 3]]
  {
    hide Sample, StoreWord, MaskedLoad;
    SampleIs(buffer, f, k, InputWidth(f));
    FifoBytes(Own(buffer, f, k, 0), Own(buffer, f, k, 1), Own(buffer, f, k, 2), Own(buffer, f, k, 3), f);
  }

  lemma FourBytes(s: seq<Byte>)
    requires 1 <= |s| <= 4
    ensures s + Zeros(4 - |s|)
         == [s[0], if |s| > 1 then s[1] else 0, if |s| > 2 then s[2] else 0, if |s| > 3 then s[3] else 0]
  {
  }

  /** Byte i of a sample, zero past its width. */
  function Own(buffer: seq<Byte>, f: Format, k: nat, i: nat): Byte {
    if i < InputWidth(f) && InputWidth(f) * k + i < |buffer| then buffer[InputWidth(f) * k + i] else 0
  }

  lemma SampleIs(buffer: seq<Byte>, f: Format, k: nat, w: nat)
    requires w == InputWidth(f) && (k + 1) * w <= |buffer|
    ensures w * k + w <= |buffer|
    ensures Sample(buffer, f, k)
         == MaskedLoad([Own(buffer, f, k, 0), Own(buffer, f, k, 1), Own(buffer, f, k, 2), Own(buffer, f, k, 3)], f)
  {
    hide MaskedLoad, InputWidth;
    Distribute(k, 1, w);
    assert k * w == w * k;
    FourBytes(buffer[k * w..k * w + w]);
    var own := buffer[k * w..k * w + w] + Zeros(4 - w);
    assert own == [Own(buffer, f, k, 0), Own(buffer, f, k, 1), Own(buffer, f, k, 2), Own(buffer, f, k, 3)];
  }

  lemma FifoBytes(b0: Byte, b1: Byte, b2: Byte, b3: Byte, f: Format)
    ensures StoreWord(MaskedLoad([b0, b1, b2, b3], f)) ==
      if f.width == Bits8 then (if f.msbAligned then [0, b1, 0, 0] else [b0, 0, 0, 0])
      else if f.width == Bits16 then (if f.msbAligned then [0, 0, b2, b3] else [b0, b1, 0, 0])
      else (if f.msbAligned then [0, b1, b2, b3] else [b0, b1, b2, 0])
  {
    hide LoadWord, StoreWord, MaskedLoad;
    if f == Format(Bits8, false) {
      Low8(b0, b1, b2, b3);
      StoreLoad([b0, 0, 0, 0]);
    } else if f == Format(Bits8, true) {
      High8(b0, b1, b2, b3);
      StoreLoad([0, b1, 0, 0]);
    } else if f == Format(Bits16, false) {
      Low16(b0, b1, b2, b3);
      StoreLoad([b0, b1, 0, 0]);
    } else if f == Format(Bits16, true) {
      High16(b0, b1, b2, b3);
      StoreLoad([0, 0, b2, b3]);
    } else if f == Format(Bits24, false) {
      Low24(b0, b1, b2, b3);
      StoreLoad([b0, b1, b2, 0]);
    } else {
      High24(b0, b1, b2, b3);
      StoreLoad([0, b1, b2, b3]);
    }
  }

  // ---- The hardware ----

  /** The two ready bits of a status word. */
  datatype Poll = Poll(input: bool, output: bool)

  class ChannelPair {
    const channels: nat
    const inThreshold: nat
    const outThreshold: nat
    const inFormat: Format
    const outFormat: Format
    /** Words in the input FIFO, every word written to it so far, every word read from the output. */
    var inFill: nat
    ghost var pushed: seq<bv32>
    ghost var drained: seq<bv32>
    /** Every status and every output fill read so far. */
    ghost var polls: seq<Poll>
    ghost var fills: seq<nat>

    /** Threshold fields are six bits wide, and the input FIFO holds 64 words a channel. */
    ghost predicate Valid()
      reads this
    {
      inThreshold < FIFO_DEPTH && outThreshold < FIFO_DEPTH && inFill <= FIFO_DEPTH * channels
    }

    /** Reads the status.  The converter may have consumed input meanwhile; the input bit means the
        fill is at or below the watermark; the output bit may be anything. */
    method Status() returns (inputReady: bool, outputReady: bool)
      modifies this`inFill, this`polls
      ensures inFill <= old(inFill) && polls == old(polls) + [Poll(inputReady, outputReady)]
      ensures inputReady ==> inFill <= inThreshold * channels
    {
      var used: nat :| used <= inFill;
      inFill := inFill - used;
      inputReady, outputReady := *, *;
      if inFill > inThreshold * channels {
        inputReady := false;
      }
      polls := polls + [Poll(inputReady, outputReady)];
    }

    method Push(w: bv32)
      modifies this`inFill, this`pushed
      ensures inFill == old(inFill) + 1 && pushed == old(pushed) + [w]
    {
      inFill := inFill + 1;
      pushed := pushed + [w];
    }

    method Pop() returns (w: bv32)
      modifies this`drained
      ensures drained == old(drained) + [w]
    {
      w := *;
      drained := drained + [w];
    }

    /** The output fill field, in frames: any seven-bit value. */
    method OutputFill() returns (n: nat)
      modifies this`fills
      ensures n < 128 && fills == old(fills) + [n]
    {
      n :| n < 128;
      fills := fills + [n];
    }
  }

  // ---- The driver ----

  /** Masked samples first, first+1, ... of the buffer, as many as asked. */
  ghost function Samples(buffer: seq<Byte>, f: Format, first: nat, n: nat): (r: seq<bv32>)
    requires (first + n) * InputWidth(f) <= |buffer|
    ensures |r| == n
  {
    if n == 0 then [] else
      MulLe(first + n - 1, first + n, InputWidth(f));
      Samples(buffer, f, first, n - 1) + [Sample(buffer, f, first + n - 1)]
  }

  lemma {:induction false} SamplesAppend(buffer: seq<Byte>, f: Format, m: nat, n: nat)
    requires (m + n) * InputWidth(f) <= |buffer|
    ensures m * InputWidth(f) <= |buffer|
    ensures Samples(buffer, f, 0, m + n) == Samples(buffer, f, 0, m) + Samples(buffer, f, m, n)
  {
    hide InputWidth, Sample;
    MulLe(m, m + n, InputWidth(f));
    if n > 0 {
      MulLe(m + n - 1, m + n, InputWidth(f));
      SamplesAppend(buffer, f, m, n - 1);
    }
  }

  /** The samples are the ones of the buffer, from the first one on. */
  lemma {:induction false} SamplesAt(buffer: seq<Byte>, f: Format, first: nat, n: nat, j: nat)
    requires (first + n) * InputWidth(f) <= |buffer| && j < n
    ensures (first + j + 1) * InputWidth(f) <= |buffer|
    ensures Samples(buffer, f, first, n)[j] == Sample(buffer, f, first + j)
  {
    hide InputWidth, Sample;
    MulLe(first + j + 1, first + n, InputWidth(f));
    MulLe(first + n - 1, first + n, InputWidth(f));
    if j < n - 1 {
      SamplesAt(buffer, f, first, n - 1, j);
    }
  }

  /** Memory holds a buffer of that size and the rest of the word its last sample begins. */
  predicate Holds(length: nat, size: nat, w: nat) { size + 4 <= length + w }

  /** Writes n samples of the buffer, starting with sample first, to the input FIFO. */
  method WriteSamples(pair: ChannelPair, memory: array<Byte>, ghost size: nat, first: nat, n: nat)
    requires Holds(memory.Length, size, InputWidth(pair.inFormat)) && size <= memory.Length
    requires (first + n) * InputWidth(pair.inFormat) <= size
    modifies pair`inFill, pair`pushed
    ensures pair.pushed == old(pair.pushed) + Samples(memory[..size], pair.inFormat, first, n)
    ensures pair.inFill == old(pair.inFill) + n && pair.drained == old(pair.drained)
  {
    hide MaskedLoad, InputWidth, Samples, Sample;
    var width := InputWidth(pair.inFormat);
    ghost var all, buffer := memory[..], memory[..size];
    assert all[..size] == buffer;
    var at := first * width;
    var i: nat := 0;
    MulLe(first, first + n, width);
    NoSamples(buffer, pair.inFormat, first);
    while i < n
      invariant i <= n && at == (first + i) * width <= (first + n) * width
      invariant pair.pushed == old(pair.pushed) + Samples(buffer, pair.inFormat, first, i)
      invariant pair.inFill == old(pair.inFill) + i && pair.drained == old(pair.drained)
    {
      Distribute(first + i, 1, width);
      MulLe(first + i + 1, first + n, width);
      NextSample(all, size, pair.inFormat, first, i);
      assert memory[at..at + 4] == all[at..at + 4];
      pair.Push(MaskedLoad(memory[at..at + 4], pair.inFormat));
      at := at + width;
      i := i + 1;
    }
  }

  lemma NoSamples(buffer: seq<Byte>, f: Format, first: nat)
    requires first * InputWidth(f) <= |buffer|
    ensures Samples(buffer, f, first, 0) == []
  {
  }

  lemma NextSample(memory: seq<Byte>, size: nat, f: Format, first: nat, i: nat)
    requires size <= |memory| && Holds(|memory|, size, InputWidth(f)) && (first + i + 1) * InputWidth(f) <= size
    ensures var at := (first + i) * InputWidth(f);
      && at <= size && at + 4 <= |memory|
      && Samples(memory[..size], f, first, i + 1)
         == Samples(memory[..size], f, first, i) + [MaskedLoad(memory[at..at + 4], f)]
  {
    hide InputWidth, MaskedLoad;
    var w, k := InputWidth(f), first + i;
    Distribute(k, 1, w);
    var b := memory[k * w..k * w + 4];
    OwnBytes(b, f);
    OwnSlice(memory, size, k * w, w);
  }

  lemma OwnSlice(memory: seq<Byte>, size: nat, at: nat, w: nat)
    requires w <= 4 && at + w <= size <= |memory| && at + 4 <= |memory|
    ensures memory[at..at + 4][..w] == memory[..size][at..at + w]
  {
  }

  /** Reads n words from the output register into memory, one width apart. */
  method ReadSamples(pair: ChannelPair, memory: array<Byte>, at: nat, n: nat) returns (ghost words: seq<bv32>)
    requires Room(memory.Length, at, n, OutputWidth(pair.outFormat))
    modifies pair`drained, memory
    ensures |words| == n && pair.drained == old(pair.drained) + words
    ensures memory[..] == Laid(old(memory[..]), at, words, OutputWidth(pair.outFormat))
  {
    hide StoreWord, OutputWidth, Laid;
    var width := OutputWidth(pair.outFormat);
    ghost var before := memory[..];
    words := [];
    var to := at;
    var i := 0;
    MulLe(0, n, width);
    LaidEmpty(before, at, width);
    while i < n
      invariant i <= n && to == at + i * width && |words| == i && Room(memory.Length, at, i, width)
      invariant pair.drained == old(pair.drained) + words
      invariant memory[..] == Laid(before, at, words, width)
    {
      Distribute(i, 1, width);
      MulLe(i + 1, n, width);
      var w := pair.Pop();
      LaidAppend(before, at, words, [w], width);
      LaidOne(memory[..], to, w, width);
      StoreUnaligned(memory, to, w);
      words := words + [w];
      to := to + width;
      i := i + 1;
    }
  }

  lemma LaidOne(mem: seq<Byte>, at: nat, x: bv32, w: nat)
    requires (w == 2 || w == 4) && Room(|mem|, at, 1, w)
    ensures Laid(mem, at, [x], w) == Splice(mem, at, StoreWord(x))
  {
    hide StoreWord;
    assert [x][..0] == [];
    assert Written([x], w) == StoreWord(x);
  }

  datatype Outcome = Converted | OutOfRange | StillPolling

  /** The samples written so far are the first ones of the buffer, in order, none repeated or skipped. */
  ghost predicate Feeding(pair: ChannelPair, input: array<Byte>, size: nat, base: nat, total: nat, written: nat,
                          left: nat, address: nat, before: seq<bv32>)
    reads pair, input
  {
    var w := InputWidth(pair.inFormat);
    && pair.Valid() && written + left == total
    && size <= input.Length && Holds(input.Length, size, w) && total * w <= size && written * w <= size
    && address == base + written * w <= ADDRESS_MAX
    && pair.pushed == before + Samples(input[..size], pair.inFormat, 0, written)
  }

  /** What the call asks of the output side. */
  function RequestOf(pair: ChannelPair, outDataSize: nat): (r: Request)
    ensures r.width == 2 || r.width == 4
    ensures r.total * r.width <= outDataSize < (r.total + 1) * r.width
  {
    var w := OutputWidth(pair.outFormat);
    Request(outDataSize / w, pair.outThreshold, pair.channels, w)
  }

  /** The run so far explains words and memory, and gives the output address. */
  ghost predicate Draining(pair: ChannelPair, output: array<Byte>, base: nat, r: Request, run: Run, left: nat,
                           address: nat, before: seq<bv32>, mem: seq<Byte>)
    reads pair, output
  {
    && ValidRequest(r) && Room(output.Length, 0, r.total, r.width) && |mem| == output.Length
    && r.width == OutputWidth(pair.outFormat) && r.threshold == pair.outThreshold && r.channels == pair.channels
    && IsRun(run) && left == Left(r, run)
    && before <= pair.drained && |Fresh(pair.drained, before)| + left == r.total
    && address == base + Offset(r, run) <= ADDRESS_MAX
    && output[..] == After(r, run, Fresh(pair.drained, before), mem)
  }

  /** The run explains the words read and what has become of output memory. */
  ghost predicate Explains(r: Request, run: Run, words: seq<bv32>, mem: seq<Byte>, now: seq<Byte>) {
    && ValidRequest(r) && Room(|mem|, 0, r.total, r.width) && IsRun(run) && |words| + Left(r, run) == r.total
    && now == After(r, run, words, mem)
  }

  /** The words read since the call began. */
  ghost function Fresh(drained: seq<bv32>, before: seq<bv32>): seq<bv32>
    requires before <= drained
  {
    drained[|before|..]
  }

  function Least(a: nat, b: nat): nat { if a < b then a else b }

  /** Words that fit on top of the input watermark. */
  function Headroom(pair: ChannelPair): nat
    requires pair.inThreshold < FIFO_DEPTH
  {
    (64 - pair.inThreshold) * pair.channels
  }

  /** Tops the input FIFO up from the buffer, as far as it goes. */
  method TopUp(pair: ChannelPair, input: array<Byte>, ghost size: nat, written: nat, inSamples: nat) returns (n: nat)
    requires pair.Valid() && pair.inFill <= pair.inThreshold * pair.channels
    requires size <= input.Length && Holds(input.Length, size, InputWidth(pair.inFormat))
    requires (written + inSamples) * InputWidth(pair.inFormat) <= size
    modifies pair`inFill, pair`pushed
    ensures pair.Valid() && n <= inSamples && pair.drained == old(pair.drained)
    ensures n == Least(inSamples, Headroom(pair))
    ensures (written + n) * InputWidth(pair.inFormat) <= size
    ensures pair.pushed == old(pair.pushed) + Samples(input[..size], pair.inFormat, written, n)
  {
    MulLe(pair.inThreshold, FIFO_DEPTH, pair.channels);
    var room := FIFO_DEPTH * pair.channels - pair.inThreshold * pair.channels;
    Distribute(FIFO_DEPTH - pair.inThreshold, pair.inThreshold, pair.channels);
    n := if inSamples < room then inSamples else room;
    MulLe(written + n, written + inSamples, InputWidth(pair.inFormat));
    WriteSamples(pair, input, size, written, n);
  }

  /** The input half of a pass. */
  method FeedPass(pair: ChannelPair, input: array<Byte>, ghost size: nat, base: nat, ghost total: nat, written: nat,
                  left: nat, address: nat, ghost before: seq<bv32>)
    returns (ok: bool, written': nat, left': nat, address': nat)
    requires Feeding(pair, input, size, base, total, written, left, address, before)
    requires pair.inFill <= pair.inThreshold * pair.channels
    modifies pair`inFill, pair`pushed
    ensures pair.drained == old(pair.drained) && pair.Valid()
    ensures written' == Least(total, written + Headroom(pair))
    ensures written' * InputWidth(pair.inFormat) <= size
    ensures pair.pushed == before + Samples(input[..size], pair.inFormat, 0, written')
    ensures ok ==> Feeding(pair, input, size, base, total, written', left', address', before)
    ensures !ok ==> base + total * InputWidth(pair.inFormat) > ADDRESS_MAX
  {
    hide Samples, InputWidth, Headroom;
    var w := InputWidth(pair.inFormat);
    var once := TopUp(pair, input, size, written, left);
    SamplesAppend(input[..size], pair.inFormat, written, once);
    StepAddress(written, once, total, w);
    written', left', address' := written + once, left - once, address;
    if once > (ADDRESS_MAX - address) / w {
      TooFar(ADDRESS_MAX - address, once, w);
      return false, written', left', address';
    }
    FitsYet(ADDRESS_MAX - address, once, w);
    address' := address + once * w;
    ok := true;
  }

  /** A read of the pass that sees that fill, at the output address. */
  method ReadPass(pair: ChannelPair, output: array<Byte>, base: nat, ghost r: Request, ghost run: Run, ghost left: nat,
                  address: nat, ghost fill: nat, n: nat, ghost before: seq<bv32>, ghost mem: seq<Byte>)
    requires Draining(pair, output, base, r, run, left, address, before, mem)
    requires n == Taken(r, left, fill) && fill < 128
    modifies pair`drained, output
    ensures before <= pair.drained && |Fresh(pair.drained, before)| + (left - n) == r.total
    ensures IsRun(run + [fill]) && Left(r, run + [fill]) == left - n
    ensures Place(r, run + [fill]) == Place(r, run) + if left > WaterMark(r) then n else 0
    ensures output[..] == After(r, run + [fill], Fresh(pair.drained, before), mem)
  {
    hide Laid, After, Left, Place, Taken, IsRun, OutputWidth;
    ghost var done := Fresh(pair.drained, before);
    ReadFits(r, run, fill, |mem|);
    ghost var words := ReadSamples(pair, output, address - base, n);
    assert Fresh(pair.drained, before) == done + words;
    NextPass(r, run, fill, done, words, mem);
    RunExtended(run, fill);
  }

  /** The output half of a pass while more than a watermark is wanted. */
  method DrainPass(pair: ChannelPair, output: array<Byte>, base: nat, ghost r: Request, ghost run: Run, n: nat,
                   left: nat, address: nat, ghost before: seq<bv32>, ghost mem: seq<Byte>)
    returns (ok: bool, left': nat, address': nat, ghost run': Run)
    requires Draining(pair, output, base, r, run, left, address, before, mem) && n == WaterMark(r) < left
    modifies pair`drained, output
    ensures run' == run + [r.threshold]
    ensures left' > 0 && left' == Left(r, run') && IsRun(run')
    ensures before <= pair.drained && |Fresh(pair.drained, before)| + left' == r.total
    ensures output[..] == After(r, run', Fresh(pair.drained, before), mem)
    ensures ok ==> Draining(pair, output, base, r, run', left', address', before, mem)
    ensures !ok ==> base + r.total * r.width > ADDRESS_MAX
  {
    hide After, Left, Place, IsRun, OutputWidth;
    var w := OutputWidth(pair.outFormat);
    ghost var at := Place(r, run);
    run' := run + [r.threshold];
    ReadPass(pair, output, base, r, run, left, address, r.threshold, n, before, mem);
    left', address' := left - n, address;
    StepAddress(at, n, r.total, w);
    if n > (ADDRESS_MAX - address) / w {
      TooFar(ADDRESS_MAX - address, n, w);
      return false, left', address', run';
    }
    FitsYet(ADDRESS_MAX - address, n, w);
    address' := address + n * w;
    ok := true;
  }

  /** The output half once a watermark or less is wanted: whatever the FIFO holds, the address kept. */
  method TailPass(pair: ChannelPair, output: array<Byte>, base: nat, ghost r: Request, ghost run: Run, left: nat,
                  address: nat, ghost before: seq<bv32>, ghost mem: seq<Byte>)
    returns (left': nat, ghost fill: nat)
    requires Draining(pair, output, base, r, run, left, address, before, mem) && left <= WaterMark(r)
    modifies pair`drained, pair`fills, output
    ensures Draining(pair, output, base, r, run + [fill], left', address, before, mem)
    ensures pair.fills == old(pair.fills) + [fill]
  {
    hide After, Left, Place, IsRun, OutputWidth;
    var seen := pair.OutputFill();
    fill := seen;
    var n := seen * pair.channels;
    if left < n {
      n := left;
    }
    ReadPass(pair, output, base, r, run, left, address, fill, n, before, mem);
    left' := left - n;
  }

  /** One pass of the polling loop. */
  method OnePass(pair: ChannelPair, input: array<Byte>, ghost size: nat, inBase: nat, ghost inTotal: nat, written: nat,
                 inLeft: nat, inAddr: nat, ghost pushed: seq<bv32>,
                 output: array<Byte>, outBase: nat, r: Request, ghost run: Run, outLeft: nat, outAddr: nat,
                 ghost drained: seq<bv32>, ghost mem: seq<Byte>,
                 ghost log: seq<Pass>, ghost polls: seq<Poll>, ghost fills: seq<nat>)
    returns (ok: bool, written': nat, inLeft': nat, inAddr': nat, outLeft': nat, outAddr': nat, ghost run': Run,
             ghost log': seq<Pass>)
    requires input != output && outLeft > 0
    requires Feeding(pair, input, size, inBase, inTotal, written, inLeft, inAddr, pushed)
    requires Draining(pair, output, outBase, r, run, outLeft, outAddr, drained, mem)
    requires Logged(pair, r, run, log, inTotal, written, polls, fills)
    modifies pair, output
    ensures pair.Valid() && written' <= inTotal && written' * InputWidth(pair.inFormat) <= size
    ensures pair.pushed == pushed + Samples(input[..size], pair.inFormat, 0, written')
    ensures drained <= pair.drained && outLeft' == Left(r, run')
    ensures Explains(r, run', Fresh(pair.drained, drained), mem, output[..])
    ensures ok ==> Feeding(pair, input, size, inBase, inTotal, written', inLeft', inAddr', pushed)
    ensures ok ==> Draining(pair, output, outBase, r, run', outLeft', outAddr', drained, mem)
    ensures ok ==> Logged(pair, r, run', log', inTotal, written', polls, fills) && |log'| == |log| + 1
    ensures !ok ==> outLeft' > 0
    ensures !ok ==>
      inBase + inTotal * InputWidth(pair.inFormat) > ADDRESS_MAX || outBase + r.total * r.width > ADDRESS_MAX
  {
    hide Samples, InputWidth, OutputWidth, After, Left, Place, Laid, IsRun, Room, Headroom,
      PollsOf, RunOf, FillsOf, ReadyPasses;
    written', inLeft', inAddr' := written, inLeft, inAddr;
    outLeft', outAddr', run', log' := outLeft, outAddr, run, log;
    ok := true;
    ghost var fill: nat := 0;
    var inputReady, outputReady := pair.Status();
    if inputReady {
      ok, written', inLeft', inAddr' := FeedPass(pair, input, size, inBase, inTotal, written, inLeft, inAddr, pushed);
      if !ok {
        return;
      }
    }
    var outWaterMark := pair.outThreshold * pair.channels;
    assert outWaterMark == WaterMark(r);
    if outLeft > outWaterMark {
      if outputReady {
        ok, outLeft', outAddr', run' :=
          DrainPass(pair, output, outBase, r, run, outWaterMark, outLeft, outAddr, drained, mem);
        if !ok {
          return;
        }
      }
    } else {
      outLeft', fill := TailPass(pair, output, outBase, r, run, outLeft, outAddr, drained, mem);
      run' := run + [fill];
    }
    ghost var p := Pass(Poll(inputReady, outputReady), fill);
    LogMore(r, log, p);
    ToppedUp(inTotal, ReadyPasses(log), Headroom(pair));
    log' := log + [p];
  }

  /** The conversion observed for any number of passes of its polling loop.  The run returned explains
      every byte of output memory; what follows from it for the caller is in the last clauses. */
  method TransferBlocking(pair: ChannelPair, input: array<Byte>, inDataSize: nat, inBase: nat,
                          output: array<Byte>, outDataSize: nat, outBase: nat, passes: nat)
    returns (outcome: Outcome, written: nat, ghost run: Run, ghost log: seq<Pass>)
    requires pair.Valid() && input != output && inBase <= ADDRESS_MAX && outBase <= ADDRESS_MAX
    requires inDataSize <= input.Length && Holds(input.Length, inDataSize, InputWidth(pair.inFormat))
    requires outDataSize <= output.Length && Holds(output.Length, outDataSize, OutputWidth(pair.outFormat))
    modifies pair, output
    ensures pair.Valid() && written <= inDataSize / InputWidth(pair.inFormat)
    ensures written * InputWidth(pair.inFormat) <= inDataSize
    ensures pair.pushed == old(pair.pushed) + Samples(input[..inDataSize], pair.inFormat, 0, written)
    ensures old(pair.drained) <= pair.drained
    ensures var r := RequestOf(pair, outDataSize);
      && Explains(r, run, Fresh(pair.drained, old(pair.drained)), old(output[..]), output[..])
      && (outcome == Converted <==> Left(r, run) == 0)
    ensures inBase + inDataSize <= ADDRESS_MAX && outBase + outDataSize <= ADDRESS_MAX ==> outcome != OutOfRange
    ensures outcome != OutOfRange ==>
      var r := RequestOf(pair, outDataSize);
      && pair.polls == old(pair.polls) + PollsOf(log) && pair.fills == old(pair.fills) + FillsOf(r, log)
      && run == RunOf(r, log)
      && written == Least(inDataSize / InputWidth(pair.inFormat), ReadyPasses(log) * Headroom(pair))
    ensures outcome == StillPolling ==> |log| == passes
    ensures var r := RequestOf(pair, outDataSize); var words := Fresh(pair.drained, old(pair.drained));
      && (forall i | End(r) <= i < output.Length :: output[i] == old(output[i]))
      && (TailFits(r) ==> Room(output.Length, 0, |words|, r.width)
                          && output[..] == Laid(old(output[..]), 0, words, r.width))
      && (WaterMark(r) == 0 && r.total > 0 ==> words == [] && outcome != Converted)
  {
    hide Samples, InputWidth, OutputWidth, After, Left, Place, Laid, IsRun, TailFits, Room, End, WaterMark, Headroom,
      PollsOf, RunOf, FillsOf, ReadyPasses;
    var wi, wo := InputWidth(pair.inFormat), OutputWidth(pair.outFormat);
    var inLeft: nat, outLeft: nat := inDataSize / wi, outDataSize / wo;
    ghost var inTotal: nat := inLeft;
    var r := RequestOf(pair, outDataSize);
    DivModEquation(inDataSize, wi);
    DivModEquation(outDataSize, wo);
    var inAddr, outAddr := inBase, outBase;
    written := 0;
    run, log := [], [];
    ghost var pushed, drained, mem := pair.pushed, pair.drained, output[..];
    ghost var polls, fills := pair.polls, pair.fills;
    Starts(pair, input, inDataSize, inBase, inTotal, output, outBase, r);
    NothingLogged(r, Headroom(pair));
    outcome := Converted;
    var pass: nat := 0;
    while outLeft != 0
      invariant Feeding(pair, input, inDataSize, inBase, inTotal, written, inLeft, inAddr, pushed)
      invariant Draining(pair, output, outBase, r, run, outLeft, outAddr, drained, mem)
      invariant outcome == Converted && |log| == pass <= passes
      invariant Logged(pair, r, run, log, inTotal, written, polls, fills)
      decreases passes - pass
    {
      if pass >= passes {
        outcome := StillPolling;
        break;
      }
      pass := pass + 1;
      var ok;
      ok, written, inLeft, inAddr, outLeft, outAddr, run, log :=
        OnePass(pair, input, inDataSize, inBase, inTotal, written, inLeft, inAddr, pushed,
                output, outBase, r, run, outLeft, outAddr, drained, mem, log, polls, fills);
      if !ok {
        outcome := OutOfRange;
        break;
      }
    }
    Consequences(r, run, Fresh(pair.drained, drained), mem);
  }

  // ---- What was polled ----

  /** A pass of the loop: its status word, and the fill it read if it read one. */
  datatype Pass = Pass(poll: Poll, fill: nat)

  ghost function PollsOf(log: seq<Pass>): seq<Poll> { seq(|log|, i requires 0 <= i < |log| => log[i].poll) }

  /** Passes that found the input ready. */
  ghost function ReadyPasses(log: seq<Pass>): nat {
    if log == [] then 0 else ReadyPasses(log[..|log| - 1]) + if log[|log| - 1].poll.input then 1 else 0
  }

  /** The reads of those passes: a watermark when the output was ready, and in the tail always. */
  ghost function RunOf(r: Request, log: seq<Pass>): Run {
    if log == [] then [] else
      var before, last := RunOf(r, log[..|log| - 1]), log[|log| - 1];
      if Left(r, before) <= WaterMark(r) then before + [last.fill]
      else if last.poll.output then before + [r.threshold]
      else before
  }

  /** The fills that the tail reads. */
  ghost function FillsOf(r: Request, log: seq<Pass>): seq<nat> {
    if log == [] then [] else
      var earlier := log[..|log| - 1];
      FillsOf(r, earlier) + if Left(r, RunOf(r, earlier)) <= WaterMark(r) then [log[|log| - 1].fill] else []
  }

  /** The log agrees with what the device showed and with what was read and written. */
  ghost predicate Logged(pair: ChannelPair, r: Request, run: Run, log: seq<Pass>, total: nat, written: nat,
                         polls: seq<Poll>, fills: seq<nat>)
    reads pair
    requires pair.inThreshold < FIFO_DEPTH
  {
    && pair.polls == polls + PollsOf(log) && pair.fills == fills + FillsOf(r, log)
    && run == RunOf(r, log) && written == Least(total, ReadyPasses(log) * Headroom(pair))
  }

  lemma LogMore(r: Request, log: seq<Pass>, p: Pass)
    ensures PollsOf(log + [p]) == PollsOf(log) + [p.poll]
    ensures ReadyPasses(log + [p]) == ReadyPasses(log) + if p.poll.input then 1 else 0
    ensures var before, left := RunOf(r, log), Left(r, RunOf(r, log));
      && RunOf(r, log + [p]) == (if left <= WaterMark(r) then before + [p.fill]
                                 else if p.poll.output then before + [r.threshold] else before)
      && FillsOf(r, log + [p]) == FillsOf(r, log) + if left <= WaterMark(r) then [p.fill] else []
  {
    hide Left, WaterMark;
    assert (log + [p])[..|log|] == log;
  }

  lemma NothingLogged(r: Request, room: nat)
    ensures PollsOf([]) == [] && FillsOf(r, []) == [] && RunOf(r, []) == [] && ReadyPasses([]) * room == 0
  {
  }

  /** One more top-up. */
  lemma ToppedUp(total: nat, passes: nat, room: nat)
    ensures Least(total, Least(total, passes * room) + room) == Least(total, (passes + 1) * room)
  {
    Distribute(passes, 1, room);
  }

  lemma Consequences(r: Request, run: Run, words: seq<bv32>, mem: seq<Byte>)
    requires ValidRequest(r) && Room(|mem|, 0, r.total, r.width) && |words| + Left(r, run) == r.total
    ensures forall i | End(r) <= i < |mem| :: After(r, run, words, mem)[i] == mem[i]
    ensures TailFits(r) ==>
      Room(|mem|, 0, |words|, r.width) && After(r, run, words, mem) == Laid(mem, 0, words, r.width)
    ensures WaterMark(r) == 0 && r.total > 0 ==> words == [] && Left(r, run) > 0
  {
    hide After, Left, Laid, TailFits;
    LaterMemoryKept(r, run, words, mem);
    if TailFits(r) {
      WholeInOrder(r, run, words, mem);
    }
    if WaterMark(r) == 0 && r.total > 0 {
      ZeroMarkReadsNothing(r, run);
    }
  }

  lemma Starts(pair: ChannelPair, input: array<Byte>, size: nat, inBase: nat, inTotal: nat,
               output: array<Byte>, outBase: nat, r: Request)
    requires pair.Valid() && inBase <= ADDRESS_MAX && outBase <= ADDRESS_MAX
    requires size <= input.Length && Holds(input.Length, size, InputWidth(pair.inFormat))
    requires inTotal * InputWidth(pair.inFormat) <= size
    requires ValidRequest(r) && Room(output.Length, 0, r.total, r.width)
    requires r.width == OutputWidth(pair.outFormat) && r.threshold == pair.outThreshold && r.channels == pair.channels
    ensures Feeding(pair, input, size, inBase, inTotal, 0, inTotal, inBase, pair.pushed)
    ensures Draining(pair, output, outBase, r, [], r.total, outBase, pair.drained, output[..])
  {
    NoSamples(input[..size], pair.inFormat, 0);
    assert pair.pushed + [] == pair.pushed;
    assert Fresh(pair.drained, pair.drained) == [];
    NoPass(r, output[..]);
  }

  /** Advancing by n samples of w bytes inside a buffer of total samples. */
  lemma StepAddress(done: nat, n: nat, total: nat, w: nat)
    requires done + n <= total
    ensures done * w + n * w == (done + n) * w <= total * w
  {
    Distribute(done, n, w);
    MulLe(done + n, total, w);
  }

  lemma TooFar(room: nat, n: nat, w: nat)
    requires w > 0 && n > room / w
    ensures n * w > room
  {
    MulLe(room / w + 1, n, w);
    DivModEquation(room, w);
    Distribute(room / w, 1, w);
  }

  lemma FitsYet(room: nat, n: nat, w: nat)
    requires w > 0 && n <= room / w
    ensures n * w <= room
  {
    MulLe(n, room / w, w);
    DivModEquation(room, w);
  }
}
