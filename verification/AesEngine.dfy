/** The AES peripheral as the driver sees it: a register file around a block cipher core and a
    multiplier.  The meaning of the CFG selectors, of COPY_TO_Y, of GCM_TAG and of the HOLDING
    read-back is the device assumption of this project, and it is stated here only. */
module AesEngine {
  import opened Bytes

  /** The block cipher under the loaded key, its inverse, and the GF(2^128) product. */
  datatype Core = Core(enc: Block -> Block, dec: Block -> Block, mul: (Block, Block) -> Block)

  ghost predicate Permutation(core: Core) {
    && (forall b: Block :: core.dec(core.enc(b)) == b)
    && (forall b: Block :: core.enc(core.dec(b)) == b)
  }

  // Configuration words, low byte and upper half of CFG (drivers/aes/fsl_aes.c:25-43).
  const CFG_ENCRYPT_ECB: bv16 := 0x001
  const CFG_DECRYPT_ECB: bv16 := 0x001
  const CFG_ENCRYPT_CBC: bv16 := 0x023
  const CFG_DECRYPT_CBC: bv16 := 0x211
  const CFG_ENCRYPT_CFB: bv16 := 0x132
  const CFG_DECRYPT_CFB: bv16 := 0x112
  const CFG_CRYPT_OFB: bv16 := 0x122
  const CFG_CRYPT_CTR: bv16 := 0x102
  const CFG_SWAP: bv8 := 0x51
  const CFG_INTEXT_SWAP: bv8 := 0x11
  const CFG_SWAP_INTEXT_HASH_IN: bv8 := 0x12
  const CFG_SWAP_CRYPT_HASH_IN: bv8 := 0x53
  const CFG_SWAP_CRYPT_HASH_OUT: bv8 := 0x57

  type Words = ws: seq<bv32> | |ws| == 4 witness [0, 0, 0, 0]

  /** HOLDING, Y and Z are kept as blocks, most significant byte first.  OUTTEXT is kept as its
      sixteen bytes in memory order: word k is the little-endian load of bytes 4k to 4k+3. */
  datatype Registers = Registers(
    cfg: bv8, mode: bv16, ctrIncr: nat, holding: Block, y: Block, z: Block,
    outtext: Block, reverse: bool, keyValid: bool)

  predicate Ciphers(cfg: bv8) { cfg & 0x01 != 0 }
  predicate Hashes(cfg: bv8) { cfg & 0x02 != 0 }
  predicate HashesOutput(cfg: bv8) { cfg & 0x04 != 0 }
  predicate SwapsInput(cfg: bv8) { cfg & 0x10 != 0 }
  predicate SwapsOutput(cfg: bv8) { cfg & 0x40 != 0 }

  function WordsToBlock(ws: Words): Block {
    BigEndian(ws[0]) + BigEndian(ws[1]) + BigEndian(ws[2]) + BigEndian(ws[3])
  }

  /** Reverses the bytes inside each of the four words of a block. */
  function SwapWords(b: Block): Block {
    [b[3], b[2], b[1], b[0], b[7], b[6], b[5], b[4], b[11], b[10], b[9], b[8], b[15], b[14], b[13], b[12]]
  }

  lemma SwapWordsTwice(b: Block)
    ensures SwapWords(SwapWords(b)) == b
  {
  }

  function MemoryWord(b: Block, k: nat): bv32
    requires k < 4
  {
    LoadWord(b[4 * k..4 * k + 4])
  }

  function InputBlock(cfg: bv8, ws: Words): Block {
    if SwapsInput(cfg)
    then WordsToBlock([SwapBytes(ws[0]), SwapBytes(ws[1]), SwapBytes(ws[2]), SwapBytes(ws[3])])
    else WordsToBlock(ws)
  }

  /** INBLK_SEL: text, holding register, or their sum. */
  function CipherInput(mode: bv16, x: Block, holding: Block): Block {
    if mode & 0x3 == 2 then holding
    else if mode & 0x3 == 3 then Xor(x, holding)
    else x
  }

  /** OUTTEXT_SEL: cipher output alone, or added to the text or to the holding register. */
  function TextOutput(mode: bv16, x: Block, holding: Block, o: Block): Block {
    if mode & 0x300 == 0x100 then Xor(o, x)
    else if mode & 0x300 == 0x200 then Xor(o, holding)
    else o
  }

  /** HOLD_SEL: counter, input text, cipher output, or output plus text. */
  function NextHolding(mode: bv16, x: Block, holding: Block, o: Block, incr: nat): Block {
    if mode & 0x30 == 0x10 then x
    else if mode & 0x30 == 0x20 then o
    else if mode & 0x30 == 0x30 then Xor(o, x)
    else AddLow(holding, incr)
  }

  function CipherOutput(core: Core, reverse: bool, input: Block): Block {
    if reverse then core.dec(input) else core.enc(input)
  }

  /** One text block through the datapath: cipher and chaining, then the running hash. */
  function Process(core: Core, r: Registers, x: Block): Registers {
    var input := CipherInput(r.mode, x, r.holding);
    var o := CipherOutput(core, r.reverse, input);
    var text := TextOutput(r.mode, x, r.holding, o);
    var ciphered :=
      if Ciphers(r.cfg)
      then r.(holding := NextHolding(r.mode, x, r.holding, o, r.ctrIncr),
              outtext := if SwapsOutput(r.cfg) then text else SwapWords(text))
      else r;
    if Hashes(r.cfg)
    then ciphered.(z := core.mul(Xor(r.z, if HashesOutput(r.cfg) then text else x), r.y))
    else ciphered
  }

  /** With the input swap selected, words loaded little-endian arrive in memory order. */
  lemma InputSwapCancels(cfg: bv8, x: Block, ws: Words)
    requires SwapsInput(cfg)
    requires forall k | 0 <= k < 4 :: ws[k] == MemoryWord(x, k)
    ensures InputBlock(cfg, ws) == x
  {
    SwappedLoad(x[0..4]);
    SwappedLoad(x[4..8]);
    SwappedLoad(x[8..12]);
    SwappedLoad(x[12..16]);
    assert x == x[0..4] + x[4..8] + x[8..12] + x[12..16];
  }

  /** OUTTEXT as the engine itself sees it, most significant byte first. */
  function OutBlock(r: Registers): Block { SwapWords(r.outtext) }

  /** GCM_TAG: the hash accumulator added to OUTTEXT as it stands. */
  function Tag(r: Registers): Block { Xor(r.z, OutBlock(r)) }

  class Engine {
    const core: Core
    var intext: Words
    var regs: Registers

    constructor (core: Core, regs: Registers)
      ensures this.core == core && this.regs == regs
    {
      this.core := core;
      this.regs := regs;
      this.intext := [0, 0, 0, 0];
    }

    /** Writing the last INTEXT word starts the engine on the block. */
    method WriteIntext(index: nat, w: bv32)
      requires index < 4
      modifies this
      ensures intext == old(intext)[index := w]
      ensures regs == if index == 3 then Process(core, old(regs), InputBlock(old(regs).cfg, intext)) else old(regs)
    {
      intext := intext[index := w];
      if index == 3 {
        regs := Process(core, regs, InputBlock(regs.cfg, intext));
      }
    }

    method WriteHolding(index: nat, w: bv32)
      requires index < 4
      modifies this`regs
      ensures regs == old(regs).(holding := Splice(old(regs).holding, 4 * index, BigEndian(w)))
    {
      regs := regs.(holding := Splice(regs.holding, 4 * index, BigEndian(w)));
    }

    /** The COPY_TO_Y command: OUTTEXT becomes the hash sub-key and a new hash starts. */
    method CopyToY()
      modifies this`regs
      ensures regs == old(regs).(y := OutBlock(old(regs)), z := ZERO_BLOCK)
    {
      regs := regs.(y := OutBlock(regs), z := ZERO_BLOCK);
    }

    /** HOLDING[3] after counter-mode blocks reads one ahead of the next counter. */
    method ReadHolding3() returns (w: bv32)
      ensures BigEndian(w) == AddLow(regs.holding, 1)[12..]
    {
      var low := AddLow(regs.holding, 1)[12..];
      w := SwapBytes(LoadWord(low));
      SwappedLoad(low);
    }
  }
}
