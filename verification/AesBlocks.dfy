/** Moving blocks between memory and the AES engine (drivers/aes/fsl_aes.c:66-152, 228-275, 331-340,
    784-844, 967-975). */
module AesBlocks {
  import opened Bytes
  import opened AesEngine

  datatype Status = Success | Fail | InvalidArgument

  /** Writes sixteen bytes of memory to INTEXT, which runs the engine once. */
  method WriteText(e: Engine, input: array<Byte>, at: nat)
    requires at + 16 <= input.Length
    requires SwapsInput(e.regs.cfg)
    modifies e
    ensures e.regs == Process(e.core, old(e.regs), input[at..at + 16])
  {
    hide Process, LoadWord;
    ghost var memory := input[..];
    ghost var x: Block := memory[at..at + 16];
    var index := 0;
    while index < 4
      invariant index <= 4
      invariant forall k | 0 <= k < index :: e.intext[k] == MemoryWord(x, k)
      invariant e.regs == if index < 4 then old(e.regs) else Process(e.core, old(e.regs), x)
    {
      var w := input[at + 4 * index..at + 4 * index + 4];
      assert w == memory[at + 4 * index..at + 4 * index + 4];
      SliceOfSlice(memory, at, index);
      e.WriteIntext(index, LoadWord(w));
      index := index + 1;
      if index == 4 {
        InputSwapCancels(old(e.regs).cfg, x, e.intext);
      }
    }
  }

  /** Reads OUTTEXT into sixteen bytes of memory. */
  method ReadText(e: Engine, output: array<Byte>, to: nat)
    requires to + 16 <= output.Length
    modifies output
    ensures output[..] == Splice(old(output[..]), to, e.regs.outtext)
  {
    hide LoadWord, StoreWord, Splice;
    ghost var before := output[..];
    ghost var bytes := e.regs.outtext;
    var index := 0;
    SpliceEnds(before, to, bytes);
    while index < 4
      invariant index <= 4
      invariant output[..] == Splice(before, to, bytes[..4 * index])
    {
      StoreLoad(bytes[4 * index..4 * index + 4]);
      StoreUnaligned(output, to + 4 * index, MemoryWord(e.regs.outtext, index));
      SpliceWord(before, to, bytes, index);
      index := index + 1;
    }
  }

  /** Pushes sixteen bytes through the engine; input and output may be the same memory. */
  method OneBlock(e: Engine, output: array<Byte>, to: nat, input: array<Byte>, from: nat)
    requires from + 16 <= input.Length && to + 16 <= output.Length
    requires SwapsInput(e.regs.cfg)
    modifies e, output
    ensures e.regs == Process(e.core, old(e.regs), old(input[from..from + 16]))
    ensures output[..] == Splice(old(output[..]), to, e.regs.outtext)
  {
    hide Process;
    WriteText(e, input, from);
    ReadText(e, output, to);
  }

  /** Loads the holding register with sixteen bytes, most significant first. */
  method SetHolding(e: Engine, input: array<Byte>)
    requires input.Length >= 16
    modifies e
    ensures e.regs == old(e.regs).(holding := input[..16])
  {
    hide LoadWord, SwapBytes, BigEndian, Splice;
    ghost var before := e.regs.holding;
    ghost var b: Block := input[..16];
    var index := 0;
    SpliceEnds(before, 0, b);
    while index < 4
      invariant index <= 4
      invariant e.regs == old(e.regs).(holding := Splice(before, 0, b[..4 * index]))
    {
      var w := input[4 * index..4 * index + 4];
      assert w == b[4 * index..4 * index + 4];
      SwappedLoad(w);
      e.WriteHolding(index, SwapBytes(LoadWord(w)));
      SpliceWord(before, 0, b, index);
      index := index + 1;
    }
  }

  /** Reads an engine block kept most significant byte first (GF128_Z, GCM_TAG): four words, each swapped. */
  method ReadSwapped(block: Block, output: array<Byte>)
    requires output.Length == 16
    modifies output
    ensures output[..] == block
  {
    hide LoadWord, SwapBytes, StoreWord, Splice;
    ghost var before := output[..];
    var index := 0;
    SpliceEnds(before, 0, block);
    while index < 4
      invariant index <= 4
      invariant output[..] == Splice(before, 0, block[..4 * index])
    {
      var w := SwapBytes(MemoryWord(block, index));
      SwapSelfInverse(MemoryWord(block, index));
      StoreLoad(block[4 * index..4 * index + 4]);
      StoreUnaligned(output, 4 * index, SwapBytes(w));
      SpliceWord(before, 0, block, index);
      index := index + 1;
    }
  }

  /** memcpy between two different buffers. */
  method CopyBytes(dst: array<Byte>, to: nat, src: array<Byte>, from: nat, n: nat)
    requires dst != src && to + n <= dst.Length && from + n <= src.Length
    modifies dst
    ensures dst[..] == Splice(old(dst[..]), to, src[from..from + n])
  {
    forall i | 0 <= i < n {
      dst[to + i] := src[from + i];
    }
  }

  /** Copies a short block into a zeroed temporary, as every padded block of the driver is made. */
  method PadBlock(input: array<Byte>, at: nat, n: nat) returns (temp: array<Byte>)
    requires 0 < n < 16 && at + n <= input.Length
    ensures fresh(temp) && temp.Length == 16
    ensures temp[..n] == input[at..at + n] && forall i | n <= i < 16 :: temp[i] == 0
    ensures temp[..] == Pad(input[at..at + n])
  {
    temp := new Byte[16](i => 0);
    CopyBytes(temp, 0, input, at, n);
  }

  /** A short block through the engine: padded, processed in place, to be cut by the caller. */
  method CryptShort(e: Engine, input: array<Byte>, at: nat, n: nat) returns (temp: array<Byte>)
    requires 0 < n < 16 && at + n <= input.Length
    requires SwapsInput(e.regs.cfg)
    modifies e
    ensures fresh(temp) && temp.Length == 16
    ensures e.regs == Process(e.core, old(e.regs), Pad(input[at..at + n]))
    ensures temp[..] == e.regs.outtext
  {
    temp := PadBlock(input, at, n);
    assert temp[..16] == temp[..];
    OneBlock(e, temp, 0, temp, 0);
  }
}
