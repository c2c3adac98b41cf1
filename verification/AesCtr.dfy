/** CTR mode and the driver's 16-byte counter arithmetic (drivers/aes/fsl_aes.c:681-773, 914-957). */
module AesCtr {
  import opened Bytes
  import opened AesEngine
  import opened AesBlocks
  import opened AesModes
  import opened NistModes

  // ---- Incrementing and decrementing a big-endian number byte by byte ----

  function Up(s: seq<Byte>): (r: seq<Byte>)
    ensures |r| == |s|
  {
    if s == [] then [] else
      var n := |s| - 1;
      if s[n] == 0xFF then Up(s[..n]) + [0] else s[..n] + [s[n] + 1]
  }

  function Down(s: seq<Byte>): (r: seq<Byte>)
    ensures |r| == |s|
  {
    if s == [] then [] else
      var n := |s| - 1;
      if s[n] == 0 then Down(s[..n]) + [0xFF] else s[..n] + [s[n] - 1]
  }

  /** The named 32-bit increment carries through all sixteen bytes. */
  method Increment(input: array<Byte>)
    requires input.Length == 16
    modifies input
    ensures input[..] == Up(old(input[..]))
  {
    ghost var s := input[..];
    var i := 15;
    assert s[..16] == s;
    while input[i] == 0xFF
      invariant 0 <= i <= 15
      invariant input[..] == s[..i + 1] + Zeros(15 - i)
      invariant Up(s) == Up(s[..i + 1]) + Zeros(15 - i)
      decreases i
    {
      UpCarry(s, i);
      input[i] := 0;
      i := i - 1;
      if i < 0 {
        return;
      }
    }
    assert s[..i + 1][..i] == s[..i];
    input[i] := input[i] + 1;
  }

  lemma UpCarry(s: seq<Byte>, i: nat)
    requires |s| == 16 && i < 16 && s[i] == 0xFF
    ensures Up(s[..i + 1]) + Zeros(15 - i) == Up(s[..i]) + Zeros(16 - i)
  {
    var t := s[..i + 1];
    assert t[..i] == s[..i] && t[i] == 0xFF;
    assert [0] + Zeros(15 - i) == Zeros(16 - i);
  }

  /** What a borrow leaves behind. */
  function Filled(n: nat): (s: seq<Byte>)
    ensures |s| == n
  {
    seq(n, i => 0xFF)
  }

  method Decrement(input: array<Byte>)
    requires input.Length == 16
    modifies input
    ensures input[..] == Down(old(input[..]))
  {
    ghost var s := input[..];
    var i := 15;
    assert s[..16] == s;
    while input[i] == 0
      invariant 0 <= i <= 15
      invariant input[..] == s[..i + 1] + Filled(15 - i)
      invariant Down(s) == Down(s[..i + 1]) + Filled(15 - i)
      decreases i
    {
      DownBorrow(s, i);
      input[i] := 0xFF;
      i := i - 1;
      if i < 0 {
        return;
      }
    }
    assert s[..i + 1][..i] == s[..i];
    input[i] := input[i] - 1;
  }

  lemma DownBorrow(s: seq<Byte>, i: nat)
    requires |s| == 16 && i < 16 && s[i] == 0
    ensures Down(s[..i + 1]) + Filled(15 - i) == Down(s[..i]) + Filled(16 - i)
  {
    var t := s[..i + 1];
    assert t[..i] == s[..i] && t[i] == 0;
    assert [0xFF] + Filled(15 - i) == Filled(16 - i);
  }

  /** Up adds one to the value, modulo 256 to the length. */
  lemma {:induction false} UpValue(s: seq<Byte>)
    ensures Value(Up(s)) == if Value(s) + 1 == Range(|s|) then 0 else Value(s) + 1
  {
    hide Up, Value, Range;
    if s == [] {
      NoValue();
    } else {
      var n := |s| - 1;
      UpValue(s[..n]);
      ValueUnfold(s);
      ValueUnfold(Up(s));
      UpUnfold(s);
    }
  }

  lemma NoValue()
    ensures Value(Up([])) == 0 && Value([]) == 0 && Range(0) == 1
  {
  }

  lemma ValueUnfold(s: seq<Byte>)
    requires s != []
    ensures Value(s) == 256 * Value(s[..|s| - 1]) + s[|s| - 1] as int && Range(|s|) == 256 * Range(|s| - 1)
  {
  }

  lemma UpUnfold(s: seq<Byte>)
    requires s != []
    ensures var n := |s| - 1;
      if s[n] as int == 255 then Up(s)[..n] == Up(s[..n]) && Up(s)[n] as int == 0
      else Up(s)[..n] == s[..n] && Up(s)[n] as int == s[n] as int + 1
  {
    ByteStep(s[|s| - 1]);
  }

  lemma ByteStep(b: Byte)
    ensures b == 0xFF <==> b as int == 255
    ensures b != 0xFF ==> (b + 1) as int == b as int + 1
  {
  }

  lemma {:induction false} DownUp(s: seq<Byte>)
    ensures Down(Up(s)) == s && Up(Down(s)) == s
  {
    hide Up, Down;
    if s == [] {
      NothingToCount();
    } else {
      var a, b := s[..|s| - 1], s[|s| - 1];
      DownUp(a);
      ByteWraps(b);
      assert s == a + [b];
      UpLast(a, b);
      DownLast(a, b);
      DownLast(if b == 0xFF then Up(a) else a, b + 1);
      UpLast(if b == 0 then Down(a) else a, b - 1);
    }
  }

  lemma NothingToCount()
    ensures Up([]) == [] && Down([]) == []
  {
  }

  lemma UpLast(a: seq<Byte>, b: Byte)
    ensures Up(a + [b]) == (if b == 0xFF then Up(a) else a) + [b + 1]
  {
    assert (a + [b])[..|a|] == a;
    ByteWraps(b);
  }

  lemma DownLast(a: seq<Byte>, b: Byte)
    ensures Down(a + [b]) == (if b == 0 then Down(a) else a) + [b - 1]
  {
    assert (a + [b])[..|a|] == a;
    ByteWraps(b);
  }

  lemma ByteWraps(b: Byte)
    ensures b + 1 == 0 <==> b == 0xFF
    ensures b - 1 == 0xFF <==> b == 0
    ensures b + 1 - 1 == b && b - 1 + 1 == b
  {
  }

  /** Down subtracts one from the value, modulo 256 to the length. */
  lemma DownValue(s: seq<Byte>)
    ensures Value(Down(s)) == if Value(s) == 0 then Range(|s|) - 1 else Value(s) - 1
  {
    DownUp(s);
    UpValue(Down(s));
  }

  ghost predicate AllOnes(s: seq<Byte>) {
    forall i | 0 <= i < |s| :: s[i] == 0xFF
  }

  /** How a carry crosses from the low bytes into the high ones. */
  lemma {:induction false} UpSplit(a: seq<Byte>, s: seq<Byte>)
    ensures Up(a + s) == if AllOnes(s) then Up(a) + Up(s) else a + Up(s)
  {
    hide AllOnes;
    if s == [] {
      assert a + s == a;
      NoOnes();
    } else {
      var n := |s| - 1;
      UpSplit(a, s[..n]);
      LastOnes(s);
      var t := a + s;
      assert t[..|t| - 1] == a + s[..n] && t[|t| - 1] == s[n];
    }
  }

  lemma NoOnes()
    ensures AllOnes([])
  {
  }

  lemma LastOnes(s: seq<Byte>)
    requires s != []
    ensures AllOnes(s) <==> s[|s| - 1] == 0xFF && AllOnes(s[..|s| - 1])
  {
  }

  lemma UpDiffers(s: seq<Byte>)
    requires s != []
    ensures Up(s) != s
  {
    assert s[|s| - 1] != 0xFF ==> s[|s| - 1] + 1 != s[|s| - 1];
  }

  /** On the low word alone, Up is inc32. */
  lemma AddLowIsUp(b: Block)
    ensures AddLow(b, 1) == b[..12] + Up(b[12..])
  {
    RangeOfWord();
    hide Value, ToBytes, Range, Up;
    var low := b[12..];
    UpValue(low);
    ToBytesValue(Up(low));
    assert Value(Up(low)) == (Value(low) + 1) % WORD_RANGE;
  }

  /** The driver's increment is inc32 exactly when the low 32 bits are not all ones. */
  lemma UpIsInc32(b: Block)
    ensures Up(b) == AddLow(b, 1) <==> !AllOnes(b[12..])
  {
    AddLowIsUp(b);
    assert b == b[..12] + b[12..];
    UpSplit(b[..12], b[12..]);
    UpDiffers(b[..12]);
    assert AllOnes(b[12..]) ==> Up(b)[..12] == Up(b[..12]) != b[..12];
  }

  // ---- Counter mode ----

  lemma {:induction false} RunIsCtr(core: Core, r: Registers, s: seq<Byte>)
    requires |s| % 16 == 0 && CounterSetup(r)
    ensures RunOut(core, r, s) == Ctr(core.enc, r.holding, s)
    ensures RunRegs(core, r, s).holding == AddLow(r.holding, |s| / 16)
  {
    hide Process, Xor, Ctr, AddLow, CounterSetup;
    if s == [] {
      AddLowZero(r.holding);
    } else {
      var n := |s| - 16;
      RunIsCtr(core, r, s[..n]);
      CtrBlockOut(core, r, s[..n], s[n..]);
      assert s == s[..n] + s[n..];
      CtrNext(core.enc, r.holding, s[..n], s[n..]);
      assert |s| / 16 == n / 16 + 1;
    }
  }

  /** Counter mode with a swapped, unchained datapath, with or without a running hash. */
  ghost predicate CounterSetup(r: Registers) {
    && Ciphers(r.cfg) && SwapsInput(r.cfg) && SwapsOutput(r.cfg)
    && r.mode == CFG_CRYPT_CTR && !r.reverse && r.ctrIncr == 1
  }

  /** One block in counter mode, and what it adds to a running hash. */
  lemma CtrProcess(core: Core, r: Registers, x: Block)
    requires CounterSetup(r)
    ensures Process(core, r, x).outtext == Xor(x, core.enc(r.holding))
    ensures Process(core, r, x).holding == AddLow(r.holding, 1)
    ensures Hashes(r.cfg) ==>
      Process(core, r, x).z == core.mul(Xor(r.z, if HashesOutput(r.cfg) then Process(core, r, x).outtext else x), r.y)
  {
    hide AddLow;
    var o: Block := core.enc(r.holding);
    XorCommutes(x, o);
    hide Xor;
    assert CipherInput(r.mode, x, r.holding) == r.holding;
    assert TextOutput(r.mode, x, r.holding, o) == Xor(o, x);
    assert NextHolding(r.mode, x, r.holding, o, 1) == AddLow(r.holding, 1);
  }

  lemma CtrBlockOut(core: Core, r: Registers, done: seq<Byte>, x: Block)
    requires |done| % 16 == 0 && CounterSetup(r)
    requires RunRegs(core, r, done).holding == AddLow(r.holding, |done| / 16)
    ensures var next := Process(core, RunRegs(core, r, done), x);
      && next.outtext == Xor(x, core.enc(AddLow(r.holding, |done| / 16)))
      && next.holding == AddLow(r.holding, |done| / 16 + 1)
  {
    hide AddLow, Process, Xor, RunRegs;
    RunKeepsSetup(core, r, done);
    CtrProcess(core, RunRegs(core, r, done), x);
    AddLowTwice(r.holding, |done| / 16, 1);
  }

  lemma CtrNext(e: Cipher, icb: Block, done: seq<Byte>, x: Block)
    requires |done| % 16 == 0
    ensures Ctr(e, icb, done + x) == Ctr(e, icb, done) + Xor(x, e(AddLow(icb, |done| / 16)))
  {
    hide AddLow;
    StreamSplit(j => e(AddLow(icb, j)), done, x);
    assert e(AddLow(icb, |done| / 16))[..16] == e(AddLow(icb, |done| / 16));
  }

  /** Blocks begun by the first n bytes. */
  function Blocks(n: nat): nat { (n + 15) / 16 }

  /** The blocks a call uses up: even an empty message takes one. */
  function BlocksUsed(size: nat): (n: nat)
    ensures 16 * n >= size && n >= 1 && (n == 1 || 16 * (n - 1) < size)
  {
    if size == 0 then 1 else Blocks(size)
  }

  /** The counter a call leaves behind: only HOLDING[3] is read back, one ahead, and then the
      sixteen bytes are decremented. */
  function NextCounter(counter: Block, used: nat): Block {
    Down(counter[..12] + AddLow(AddLow(counter, used), 1)[12..])
  }

  /** The counter returned is the next one exactly when its low word is not all ones. */
  lemma NextCounterExact(counter: Block, used: nat)
    ensures NextCounter(counter, used) == AddLow(counter, used) <==> !AllOnes(AddLow(counter, used)[12..])
  {
    var next := AddLow(counter, used);
    assert AddLow(next, 1)[..12] == next[..12] == counter[..12];
    assert counter[..12] + AddLow(next, 1)[12..] == AddLow(next, 1);
    hide AddLow, Up, Down;
    UpIsInc32(next);
    DownUp(next);
    DownUp(AddLow(next, 1));
  }

  /** CTR with the counter advanced in place and the last key block kept for chaining. */
  method CryptCtr(e: Engine, input: array<Byte>, output: array<Byte>, size: nat,
                  counter: array<Byte>, counterlast: array?<Byte>)
    returns (status: Status, szLeft: nat)
    requires size <= input.Length && size <= output.Length && counter.Length == 16
    requires counter != output && counter != counterlast
    requires counterlast != null ==> counterlast.Length == 16 && counterlast != input && counterlast != output
    modifies e, output, counter, counterlast
    ensures status == if old(e.regs.keyValid) then Success else InvalidArgument
    ensures e.regs.keyValid == old(e.regs.keyValid)
    ensures status == Success ==>
      && output[..] == Ctr(e.core.enc, old(counter[..]), old(input[..size])) + old(output[size..])
      && counter[..] == NextCounter(old(counter[..]), BlocksUsed(size))
      && szLeft == 16 * BlocksUsed(size) - size
      && (counterlast != null ==>
            counterlast[..] == e.core.enc(AddLow(old(counter[..]), BlocksUsed(size) - 1)))
    ensures status != Success ==> output[..] == old(output[..]) && counter[..] == old(counter[..])
    ensures status != Success && counterlast != null ==> counterlast[..] == old(counterlast[..])
  {
    szLeft := 0;
    if !e.regs.keyValid {
      return InvalidArgument, szLeft;
    }
    hide Process, Ctr, AddLow, Down;
    e.regs := e.regs.(cfg := CFG_SWAP, mode := CFG_CRYPT_CTR);
    e.regs := e.regs.(reverse := false);
    SetHolding(e, counter);
    e.regs := e.regs.(ctrIncr := 1);
    assert counter[..16] == counter[..];

    var lastBlock := new Byte[16](i => 0);
    var lastKey := if counterlast != null then counterlast else lastBlock;
    var lastSize := CounterBlocks(e, input, output, size, lastKey, lastBlock);
    ReadBackCounter(e, counter, old(counter[..]), BlocksUsed(size));
    szLeft := 16 - lastSize;
    return Success, szLeft;
  }

  /** The message in counter mode: whole blocks, then a last one whose key block is kept. */
  method CounterBlocks(e: Engine, input: array<Byte>, output: array<Byte>, size: nat,
                       lastKey: array<Byte>, lastBlock: array<Byte>)
    returns (lastSize: nat)
    requires size <= input.Length && size <= output.Length && CounterSetup(e.regs)
    requires lastKey.Length == lastBlock.Length == 16 && lastBlock[..] == ZERO_BLOCK
    requires lastKey != input && lastKey != output && lastBlock != output
    modifies e, output, lastKey
    ensures output[..] == Ctr(e.core.enc, old(e.regs.holding), old(input[..size])) + old(output[size..])
    ensures lastKey[..] == e.core.enc(AddLow(old(e.regs.holding), BlocksUsed(size) - 1))
    ensures e.regs.holding == AddLow(old(e.regs.holding), BlocksUsed(size))
    ensures lastSize <= 16 && 16 - lastSize == 16 * BlocksUsed(size) - size
    ensures e.regs.keyValid == old(e.regs.keyValid)
  {
    hide Process, Ctr, AddLow, Xor, Splice, RunRegs, RunOut, BlocksUsed;
    ghost var r, text, before := e.regs, input[..size], output[..];
    lastSize := size;
    if size > 16 {
      lastSize := if size % 16 == 0 then 16 else size % 16;
    }
    var whole := size - lastSize;
    LastBlock(size, lastSize);
    assert text[..whole] == input[..whole];
    RunIsCtr(e.core, r, text[..whole]);
    RunBlocks(e, input, output, whole);
    assert input[whole..size] == text[whole..] by { assert input[whole..size] == input[whole..][..size - whole]; }
    LastKey(e, lastKey, lastBlock, whole, r, text);
    XorInto(output, input, whole, lastSize, lastKey);
    TailSpliced(e.core, r.holding, text, whole, before);
  }

  /** The last bytes written behind the whole blocks. */
  lemma TailSpliced(core: Core, icb: Block, text: seq<Byte>, whole: nat, before: seq<Byte>)
    requires whole % 16 == 0 && whole <= |text| <= whole + 16 && |text| <= |before|
    ensures var key := core.enc(AddLow(icb, whole / 16))[..|text| - whole];
      Splice(Ctr(core.enc, icb, text[..whole]) + before[whole..], whole, Xor(text[whole..], key))
      == Ctr(core.enc, icb, text) + before[|text|..]
  {
    hide AddLow, Xor, Ctr, Splice;
    CtrTail(core, icb, text, whole);
    SpliceNext(Ctr(core.enc, icb, text[..whole]), before,
               Xor(text[whole..], core.enc(AddLow(icb, whole / 16))[..|text| - whole]));
  }

  /** What the size of the last block says about the blocks used. */
  lemma LastBlock(size: nat, lastSize: nat)
    requires lastSize == if size <= 16 then size else if size % 16 == 0 then 16 else size % 16
    ensures lastSize <= size && lastSize <= 16 && (size - lastSize) % 16 == 0
    ensures BlocksUsed(size) == (size - lastSize) / 16 + 1 && 16 - lastSize == 16 * BlocksUsed(size) - size
  {
  }

  /** A zero block through the engine gives the cipher of the counter itself. */
  method LastKey(e: Engine, lastKey: array<Byte>, lastBlock: array<Byte>, whole: nat,
                 ghost r: Registers, ghost text: seq<Byte>)
    requires whole % 16 == 0 && whole <= |text| && CounterSetup(r)
    requires lastKey.Length == lastBlock.Length == 16 && lastBlock[..] == ZERO_BLOCK
    requires e.regs == RunRegs(e.core, r, text[..whole])
    requires e.regs.holding == AddLow(r.holding, whole / 16)
    modifies e, lastKey
    ensures lastKey[..] == e.core.enc(AddLow(r.holding, whole / 16))
    ensures e.regs.holding == AddLow(r.holding, whole / 16 + 1) && e.regs.keyValid == r.keyValid
  {
    hide Process, AddLow, RunRegs;
    RunKeepsSetup(e.core, r, text[..whole]);
    CtrBlockOut(e.core, r, text[..whole], ZERO_BLOCK);
    ProcessKeeps(e.core, e.regs, ZERO_BLOCK);
    assert lastBlock[0..16] == lastBlock[..];
    OneBlock(e, lastKey, 0, lastBlock, 0);
    XorZero(e.core.enc(AddLow(r.holding, whole / 16)));
  }

  /** The remaining bytes meet the last key block. */
  method XorInto(output: array<Byte>, input: array<Byte>, at: nat, n: nat, key: array<Byte>)
    requires n <= 16 && key.Length == 16 && key != output && at + n <= output.Length && at + n <= input.Length
    modifies output
    ensures output[..] == Splice(old(output[..]), at, Xor(old(input[at..at + n]), key[..n]))
  {
    hide Xor, Splice;
    ghost var before, text := output[..], input[..];
    ghost var mixed := Xor(text[at..at + n], key[..n]);
    var i := 0;
    while i < n
      invariant i <= n
      invariant forall k | 0 <= k < output.Length ::
        output[k] == if at <= k < at + i then mixed[k - at] else before[k]
      invariant forall k | at + i <= k < input.Length :: input[k] == text[k]
    {
      XorAt(text[at..at + n], key[..n], i);
      output[at + i] := input[at + i] ^ key[i];
      i := i + 1;
    }
    SpliceByBytes(before, at, mixed, output[..]);
    assert text[at..at + n] == old(input[at..at + n]);
  }

  lemma XorAt(a: seq<Byte>, b: seq<Byte>, i: nat)
    requires i < |a| == |b|
    ensures Xor(a, b)[i] == a[i] ^ b[i]
  {
  }

  lemma SpliceByBytes(before: seq<Byte>, at: nat, b: seq<Byte>, result: seq<Byte>)
    requires at + |b| <= |before| == |result|
    requires forall k | 0 <= k < |result| :: result[k] == if at <= k < at + |b| then b[k - at] else before[k]
    ensures result == Splice(before, at, b)
  {
  }

  lemma CtrTail(core: Core, icb: Block, text: seq<Byte>, whole: nat)
    requires whole % 16 == 0 && whole <= |text| <= whole + 16
    ensures Ctr(core.enc, icb, text)
         == Ctr(core.enc, icb, text[..whole]) + Xor(text[whole..], core.enc(AddLow(icb, whole / 16))[..|text| - whole])
  {
    hide AddLow;
    assert text == text[..whole] + text[whole..];
    StreamSplit(j => core.enc(AddLow(icb, j)), text[..whole], text[whole..]);
  }

  method ReadBackCounter(e: Engine, counter: array<Byte>, ghost icb: Block, ghost used: nat)
    requires counter.Length == 16 && counter[..12] == icb[..12]
    requires e.regs.holding == AddLow(icb, used)
    modifies counter
    ensures counter[..] == NextCounter(icb, used)
  {
    hide AddLow, Down, SwapBytes, BigEndian, StoreWord;
    var w := e.ReadHolding3();
    StoreUnaligned(counter, 12, SwapBytes(w));
    SwapSelfInverse(w);
    assert counter[..] == icb[..12] + AddLow(AddLow(icb, used), 1)[12..];
    Decrement(counter);
  }

  // ---- Parts of a counter-mode message ----

  lemma CtrPrefix(e: Cipher, counter: Block, m: seq<Byte>, k: nat)
    requires k <= |m|
    ensures Ctr(e, counter, m[..k]) == Ctr(e, counter, m)[..k]
  {
    hide AddLow;
  }

  lemma CtrAt(e: Cipher, icb: Block, m: seq<Byte>, i: nat)
    requires i < |m|
    ensures Ctr(e, icb, m)[i] == m[i] ^ e(AddLow(icb, i / 16))[i % 16]
  {
    hide AddLow;
  }

  lemma FirstBlock(e: Cipher, icb: Block, m: seq<Byte>)
    requires |m| >= 16
    ensures Ctr(e, icb, m)[..16] == Xor(m[..16], e(icb))
  {
    AddLowZero(icb);
    hide AddLow;
  }

  /** Two counters never serve for one another. */
  lemma DifferentKeys(core: Core, x: Block, a: Block, b: Block)
    requires Permutation(core) && a != b
    ensures core.enc(a) != core.enc(b) && Xor(x, core.enc(a)) != Xor(x, core.enc(b))
  {
    hide Xor;
    assert core.dec(core.enc(a)) != core.dec(core.enc(b));
    XorCancels(x, core.enc(a));
    XorCancels(x, core.enc(b));
  }
}
