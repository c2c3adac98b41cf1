/** ECB, CBC, CFB and OFB as the driver runs them (drivers/aes/fsl_aes.c:388-563). */
module AesModes {
  import opened Bytes
  import opened AesEngine
  import opened AesBlocks
  import opened NistModes

  // ---- The engine over a whole number of blocks ----

  /** The registers after the blocks of s have gone through the engine one by one. */
  ghost function RunRegs(core: Core, r: Registers, s: seq<Byte>): Registers
    requires |s| % 16 == 0
  {
    if s == [] then r else var n := |s| - 16; Process(core, RunRegs(core, r, s[..n]), s[n..])
  }

  /** The bytes read back, block after block. */
  ghost function RunOut(core: Core, r: Registers, s: seq<Byte>): (out: seq<Byte>)
    requires |s| % 16 == 0
    ensures |out| == |s|
  {
    if s == [] then [] else var n := |s| - 16; RunOut(core, r, s[..n]) + RunRegs(core, r, s).outtext
  }

  /** Everything the driver set up before the first block is still in place. */
  ghost predicate SameSetup(r: Registers, r': Registers) {
    && r'.cfg == r.cfg && r'.mode == r.mode && r'.ctrIncr == r.ctrIncr && r'.reverse == r.reverse && r'.y == r.y
    && r'.keyValid == r.keyValid
  }

  lemma ProcessKeeps(core: Core, r: Registers, x: Block)
    ensures SameSetup(r, Process(core, r, x))
    ensures !Hashes(r.cfg) ==> Process(core, r, x).z == r.z
  {
    hide Xor, AddLow, SwapWords;
  }

  lemma {:induction false} RunKeepsSetup(core: Core, r: Registers, s: seq<Byte>)
    requires |s| % 16 == 0
    ensures SameSetup(r, RunRegs(core, r, s))
    ensures !Hashes(r.cfg) ==> RunRegs(core, r, s).z == r.z
  {
    if s != [] {
      RunKeepsSetup(core, r, s[..|s| - 16]);
    }
  }

  ghost predicate Configured(r: Registers, mode: bv16, reverse: bool) {
    r.cfg == CFG_SWAP && r.mode == mode && r.reverse == reverse
  }

  /** One block with the selectors of a configured mode. */
  lemma ProcessConfigured(core: Core, r: Registers, x: Block)
    requires Configured(r, r.mode, r.reverse)
    ensures var o := CipherOutput(core, r.reverse, CipherInput(r.mode, x, r.holding));
      && Process(core, r, x).outtext == TextOutput(r.mode, x, r.holding, o)
      && Process(core, r, x).holding == NextHolding(r.mode, x, r.holding, o, r.ctrIncr)
  {
    hide Xor, AddLow, CipherInput, CipherOutput, TextOutput, NextHolding;
  }

  lemma {:induction false} RunIsEcb(core: Core, r: Registers, s: seq<Byte>)
    requires |s| % 16 == 0 && Configured(r, CFG_ENCRYPT_ECB, r.reverse)
    ensures RunOut(core, r, s) == Ecb(if r.reverse then core.dec else core.enc, s)
  {
    hide Process, Xor, AddLow;
    if s != [] {
      var n := |s| - 16;
      RunIsEcb(core, r, s[..n]);
      RunKeepsSetup(core, r, s[..n]);
      ProcessConfigured(core, RunRegs(core, r, s[..n]), s[n..]);
    }
  }

  lemma {:induction false} RunIsCbcEncrypt(core: Core, r: Registers, s: seq<Byte>)
    requires |s| % 16 == 0 && Configured(r, CFG_ENCRYPT_CBC, false)
    ensures RunOut(core, r, s) == CbcEncrypt(core.enc, r.holding, s)
    ensures RunRegs(core, r, s).holding == Previous(r.holding, CbcEncrypt(core.enc, r.holding, s))
  {
    hide Process, Xor, AddLow;
    if s != [] {
      var n := |s| - 16;
      RunIsCbcEncrypt(core, r, s[..n]);
      RunKeepsSetup(core, r, s[..n]);
      ProcessConfigured(core, RunRegs(core, r, s[..n]), s[n..]);
    }
  }

  lemma {:induction false} RunIsCbcDecrypt(core: Core, r: Registers, s: seq<Byte>)
    requires |s| % 16 == 0 && Configured(r, CFG_DECRYPT_CBC, true)
    ensures RunOut(core, r, s) == CbcDecrypt(core.dec, r.holding, s)
    ensures RunRegs(core, r, s).holding == Previous(r.holding, s)
  {
    hide Process, Xor, AddLow;
    if s != [] {
      var n := |s| - 16;
      RunIsCbcDecrypt(core, r, s[..n]);
      RunKeepsSetup(core, r, s[..n]);
      ProcessConfigured(core, RunRegs(core, r, s[..n]), s[n..]);
    }
  }

  lemma {:induction false} RunIsCfbEncrypt(core: Core, r: Registers, s: seq<Byte>)
    requires |s| % 16 == 0 && Configured(r, CFG_ENCRYPT_CFB, false)
    ensures RunOut(core, r, s) == CfbEncrypt(core.enc, r.holding, s)
    ensures RunRegs(core, r, s).holding == Previous(r.holding, CfbEncrypt(core.enc, r.holding, s))
  {
    hide Process, Xor, AddLow;
    if s != [] {
      var n := |s| - 16;
      RunIsCfbEncrypt(core, r, s[..n]);
      RunKeepsSetup(core, r, s[..n]);
      ProcessConfigured(core, RunRegs(core, r, s[..n]), s[n..]);
    }
  }

  lemma {:induction false} RunIsCfbDecrypt(core: Core, r: Registers, s: seq<Byte>)
    requires |s| % 16 == 0 && Configured(r, CFG_DECRYPT_CFB, false)
    ensures RunOut(core, r, s) == CfbDecrypt(core.enc, r.holding, s)
    ensures RunRegs(core, r, s).holding == Previous(r.holding, s)
  {
    hide Process, Xor, AddLow;
    if s != [] {
      var n := |s| - 16;
      RunIsCfbDecrypt(core, r, s[..n]);
      RunKeepsSetup(core, r, s[..n]);
      ProcessConfigured(core, RunRegs(core, r, s[..n]), s[n..]);
    }
  }

  /** What the holding register carries into block j of an OFB run. */
  ghost function OfbHolding(e: Cipher, iv: Block, j: nat): Block {
    if j == 0 then iv else OfbBlock(e, iv, j - 1)
  }

  lemma {:induction false} RunIsOfb(core: Core, r: Registers, s: seq<Byte>)
    requires |s| % 16 == 0 && Configured(r, CFG_CRYPT_OFB, false)
    ensures RunOut(core, r, s) == Ofb(core.enc, r.holding, s)
    ensures RunRegs(core, r, s).holding == OfbHolding(core.enc, r.holding, |s| / 16)
  {
    if s == [] {
    } else {
      hide Process, Xor, OfbBlock, Ofb;
      var n := |s| - 16;
      RunIsOfb(core, r, s[..n]);
      OfbBlockOut(core, r, s[..n], s[n..]);
      assert s == s[..n] + s[n..];
      OfbNext(core.enc, r.holding, s[..n], s[n..]);
      assert |s| / 16 - 1 == n / 16;
    }
  }

  lemma OfbNext(e: Cipher, iv: Block, done: seq<Byte>, x: Block)
    requires |done| % 16 == 0
    ensures Ofb(e, iv, done + x) == Ofb(e, iv, done) + Xor(x, OfbBlock(e, iv, |done| / 16))
  {
    StreamSplit(j => OfbBlock(e, iv, j), done, x);
    assert OfbBlock(e, iv, |done| / 16)[..16] == OfbBlock(e, iv, |done| / 16);
  }

  lemma OfbBlockOut(core: Core, r: Registers, done: seq<Byte>, x: Block)
    requires |done| % 16 == 0 && Configured(r, CFG_CRYPT_OFB, false)
    requires RunRegs(core, r, done).holding == OfbHolding(core.enc, r.holding, |done| / 16)
    ensures Process(core, RunRegs(core, r, done), x).outtext == Xor(x, OfbBlock(core.enc, r.holding, |done| / 16))
    ensures Process(core, RunRegs(core, r, done), x).holding == OfbBlock(core.enc, r.holding, |done| / 16)
  {
    hide Process, Xor, AddLow, RunRegs, OfbBlock, OfbHolding;
    var now, key := RunRegs(core, r, done), OfbBlock(core.enc, r.holding, |done| / 16);
    RunKeepsSetup(core, r, done);
    ProcessConfigured(core, now, x);
    OfbKey(core.enc, r.holding, |done| / 16);
    XorCommutes(x, key);
  }

  lemma OfbKey(e: Cipher, iv: Block, j: nat)
    ensures e(OfbHolding(e, iv, j)) == OfbBlock(e, iv, j)
  {
  }

  // ---- The driver's calls ----

  /** One block of a message, behind the bytes already done. */
  method NextBlock(e: Engine, input: array<Byte>, output: array<Byte>, at: nat,
                   ghost text: seq<Byte>, ghost done: seq<Byte>, ghost before: seq<Byte>)
    requires at + 16 <= input.Length && at + 16 <= output.Length
    requires SwapsInput(e.regs.cfg)
    requires |text| == input.Length && input[at..] == text[at..]
    requires |done| == at && |before| == output.Length && output[..] == done + before[at..]
    modifies e, output
    ensures e.regs == Process(e.core, old(e.regs), text[at..at + 16])
    ensures output[..] == (done + e.regs.outtext) + before[at + 16..]
    ensures input[at + 16..] == text[at + 16..]
  {
    hide Process;
    assert input[at..at + 16] == input[at..][..16] == text[at..at + 16];
    assert input[at + 16..] == input[at..][16..] == text[at + 16..];
    ghost var was := output[..];
    OneBlock(e, output, at, input, at);
    SpliceNext(done, before, e.regs.outtext);
    assert output[at + 16..] == was[at + 16..];
  }

  /** The loop shared by every mode: the first n bytes, block by block, possibly in place. */
  method RunBlocks(e: Engine, input: array<Byte>, output: array<Byte>, n: nat)
    requires n % 16 == 0 && n <= input.Length && n <= output.Length
    requires SwapsInput(e.regs.cfg)
    modifies e, output
    ensures e.regs == RunRegs(e.core, old(e.regs), old(input[..n]))
    ensures output[..] == RunOut(e.core, old(e.regs), old(input[..n])) + old(output[n..])
    ensures input[n..] == old(input[n..])
  {
    hide Process, RunRegs, RunOut;
    ghost var text := input[..];
    ghost var before := output[..];
    ghost var r := e.regs;
    var at := 0;
    RunNone(e.core, r);
    assert text[..0] == [] && before[0..] == before;
    while at < n
      invariant at <= n && at % 16 == 0
      invariant e.regs == RunRegs(e.core, r, text[..at])
      invariant output[..] == RunOut(e.core, r, text[..at]) + before[at..]
      invariant input[at..] == text[at..]
    {
      RunKeepsSetup(e.core, r, text[..at]);
      RunStep(e.core, r, text, at);
      NextBlock(e, input, output, at, text, RunOut(e.core, r, text[..at]), before);
      at := at + 16;
    }
  }

  lemma RunNone(core: Core, r: Registers)
    ensures RunRegs(core, r, []) == r && RunOut(core, r, []) == []
  {
  }

  /** One block more of a run. */
  lemma RunStep(core: Core, r: Registers, text: seq<Byte>, at: nat)
    requires at % 16 == 0 && at + 16 <= |text|
    ensures var next := Process(core, RunRegs(core, r, text[..at]), text[at..at + 16]);
      && RunRegs(core, r, text[..at + 16]) == next
      && RunOut(core, r, text[..at + 16]) == RunOut(core, r, text[..at]) + next.outtext
  {
    var s := text[..at + 16];
    assert s[..|s| - 16] == text[..at] && s[|s| - 16..] == text[at..at + 16];
  }

  method EncryptEcb(e: Engine, plaintext: array<Byte>, ciphertext: array<Byte>, size: nat) returns (status: Status)
    requires size <= plaintext.Length && size <= ciphertext.Length
    modifies e, ciphertext
    ensures status == if size % 16 == 0 && old(e.regs.keyValid) then Success else InvalidArgument
    ensures status == Success ==>
      ciphertext[..] == Ecb(e.core.enc, old(plaintext[..size])) + old(ciphertext[size..])
    ensures status != Success ==> ciphertext[..] == old(ciphertext[..])
  {
    if size % 16 != 0 {
      return InvalidArgument;
    }
    e.regs := e.regs.(cfg := CFG_SWAP, mode := CFG_ENCRYPT_ECB);
    if !e.regs.keyValid {
      return InvalidArgument;
    }
    e.regs := e.regs.(reverse := false);
    RunIsEcb(e.core, e.regs, plaintext[..size]);
    RunBlocks(e, plaintext, ciphertext, size);
    return Success;
  }

  method DecryptEcb(e: Engine, ciphertext: array<Byte>, plaintext: array<Byte>, size: nat) returns (status: Status)
    requires size <= plaintext.Length && size <= ciphertext.Length
    modifies e, plaintext
    ensures status == if size % 16 == 0 && old(e.regs.keyValid) then Success else InvalidArgument
    ensures status == Success ==>
      plaintext[..] == Ecb(e.core.dec, old(ciphertext[..size])) + old(plaintext[size..])
    ensures status != Success ==> plaintext[..] == old(plaintext[..]) && e.regs == old(e.regs)
  {
    if size % 16 != 0 {
      return InvalidArgument;
    }
    if !e.regs.keyValid {
      return InvalidArgument;
    }
    e.regs := e.regs.(cfg := CFG_SWAP, mode := CFG_DECRYPT_ECB);
    e.regs := e.regs.(reverse := true);
    RunIsEcb(e.core, e.regs, ciphertext[..size]);
    RunBlocks(e, ciphertext, plaintext, size);
    return Success;
  }

  predicate WholeBlockMode(configuration: bv16) {
    || configuration == CFG_ENCRYPT_CFB || configuration == CFG_DECRYPT_CFB
    || configuration == CFG_ENCRYPT_CBC || configuration == CFG_DECRYPT_CBC
  }

  predicate Accepts(configuration: bv16, size: nat) {
    (WholeBlockMode(configuration) && size % 16 == 0) || configuration == CFG_CRYPT_OFB
  }

  /** Every whole number of blocks in the CBC and CFB modes, every size in OFB, and nothing else. */
  lemma AcceptedSizes(configuration: bv16, size: nat)
    ensures Accepts(CFG_CRYPT_OFB, size)
    ensures Accepts(CFG_ENCRYPT_CBC, size) <==> exists n: nat :: size == 16 * n
    ensures Accepts(CFG_DECRYPT_CBC, size) <==> exists n: nat :: size == 16 * n
    ensures Accepts(CFG_ENCRYPT_CFB, size) <==> exists n: nat :: size == 16 * n
    ensures Accepts(CFG_DECRYPT_CFB, size) <==> exists n: nat :: size == 16 * n
    ensures Accepts(configuration, size) ==>
      configuration in [CFG_CRYPT_OFB, CFG_ENCRYPT_CBC, CFG_DECRYPT_CBC, CFG_ENCRYPT_CFB, CFG_DECRYPT_CFB]
  {
    if size % 16 == 0 {
      assert size == 16 * (size / 16);
    }
  }

  /** What SP 800-38A asks of each configuration the driver accepts. */
  ghost function Standard(core: Core, configuration: bv16, iv: Block, s: seq<Byte>): (out: seq<Byte>)
    requires Accepts(configuration, |s|)
    ensures |out| == |s|
  {
    if configuration == CFG_ENCRYPT_CBC then CbcEncrypt(core.enc, iv, s)
    else if configuration == CFG_DECRYPT_CBC then CbcDecrypt(core.dec, iv, s)
    else if configuration == CFG_ENCRYPT_CFB then CfbEncrypt(core.enc, iv, s)
    else if configuration == CFG_DECRYPT_CFB then CfbDecrypt(core.enc, iv, s)
    else Ofb(core.enc, iv, s)
  }

  /** The configuration that undoes another. */
  function Undo(configuration: bv16): bv16 {
    if configuration == CFG_ENCRYPT_CBC then CFG_DECRYPT_CBC
    else if configuration == CFG_ENCRYPT_CFB then CFG_DECRYPT_CFB
    else configuration
  }

  /** Decrypting with the matching configuration and the same IV returns the message. */
  lemma BlockModeRoundTrip(core: Core, configuration: bv16, iv: Block, s: seq<Byte>)
    requires configuration in {CFG_ENCRYPT_CBC, CFG_ENCRYPT_CFB, CFG_CRYPT_OFB} && Accepts(configuration, |s|)
    requires Permutation(core)
    ensures Standard(core, Undo(configuration), iv, Standard(core, configuration, iv, s)) == s
  {
    if configuration == CFG_ENCRYPT_CBC {
      CbcRoundTrip(core.enc, core.dec, iv, s);
    } else if configuration == CFG_ENCRYPT_CFB {
      CfbRoundTrip(core.enc, iv, s);
    } else {
      StreamRoundTrip(j => OfbBlock(core.enc, iv, j), s);
    }
  }

  lemma RunIsStandard(core: Core, r: Registers, s: seq<Byte>)
    requires |s| % 16 == 0 && Accepts(r.mode, |s|)
    requires Configured(r, r.mode, r.mode == CFG_DECRYPT_CBC)
    ensures RunOut(core, r, s) == Standard(core, r.mode, r.holding, s)
  {
    if r.mode == CFG_ENCRYPT_CBC {
      RunIsCbcEncrypt(core, r, s);
    } else if r.mode == CFG_DECRYPT_CBC {
      RunIsCbcDecrypt(core, r, s);
    } else if r.mode == CFG_ENCRYPT_CFB {
      RunIsCfbEncrypt(core, r, s);
    } else if r.mode == CFG_DECRYPT_CFB {
      RunIsCfbDecrypt(core, r, s);
    } else {
      RunIsOfb(core, r, s);
    }
  }

  /** The end of an OFB message: the short block is padded, processed and cut. */
  method ShortOfb(e: Engine, input: array<Byte>, output: array<Byte>, whole: nat, size: nat,
                  ghost r: Registers, ghost text: seq<Byte>)
    requires whole % 16 == 0 && whole < size < whole + 16 && size == |text|
    requires size <= input.Length && size <= output.Length
    requires input[whole..size] == text[whole..]
    requires Configured(r, CFG_CRYPT_OFB, false)
    requires e.regs == RunRegs(e.core, r, text[..whole])
    requires e.regs.holding == OfbHolding(e.core.enc, r.holding, whole / 16)
    requires output[..whole] == Ofb(e.core.enc, r.holding, text[..whole])
    modifies e, output
    ensures output[..] == Ofb(e.core.enc, r.holding, text) + old(output[size..])
  {
    hide Process, Ofb, Xor, OfbBlock, OfbHolding, RunRegs, Pad;
    RunKeepsSetup(e.core, r, text[..whole]);
    var n := size - whole;
    ghost var x := PadShort(text[whole..]);
    assert input[whole..whole + n] == text[whole..];
    var temp := CryptShort(e, input, whole, n);
    OfbBlockOut(e.core, r, text[..whole], x);
    CopyBytes(output, whole, temp, 0, n);
    assert size % 16 == n;
    ShortBlock(e.core, r.holding, text, x);
  }

  /** The data loop of a configured mode, with the short block that only OFB can have. */
  method CryptConfigured(e: Engine, input: array<Byte>, output: array<Byte>, size: nat)
    requires size <= input.Length && size <= output.Length
    requires Accepts(e.regs.mode, size) && Configured(e.regs, e.regs.mode, e.regs.mode == CFG_DECRYPT_CBC)
    modifies e, output
    ensures output[..] ==
      Standard(e.core, old(e.regs.mode), old(e.regs.holding), old(input[..size])) + old(output[size..])
  {
    hide Process, RunRegs, RunOut, Xor, OfbHolding, Ofb, CbcEncrypt, CbcDecrypt, CfbEncrypt, CfbDecrypt;
    var whole := size - size % 16;
    ghost var r, text, before := e.regs, input[..size], output[..];
    assert text[..whole] == input[..whole];
    if size % 16 == 0 {
      assert text[..whole] == text;
      RunIsStandard(e.core, r, text);
      RunBlocks(e, input, output, whole);
    } else {
      RunIsOfb(e.core, r, text[..whole]);
      RunBlocks(e, input, output, whole);
      assert input[whole..size] == text[whole..] by { assert input[whole..size] == input[whole..][..size - whole]; }
      ShortOfb(e, input, output, whole, size, r, text);
    }
  }

  /** CBC, CFB and OFB: the IV goes to the holding register and OFB may end in a short block. */
  method BlockMode(e: Engine, input: array<Byte>, output: array<Byte>, size: nat, iv: array<Byte>, configuration: bv16)
    returns (status: Status)
    requires size <= input.Length && size <= output.Length && iv.Length >= 16
    modifies e, output
    ensures status == if Accepts(configuration, size) && old(e.regs.keyValid) then Success else InvalidArgument
    ensures status == Success ==>
      output[..] == Standard(e.core, configuration, old(iv[..16]), old(input[..size])) + old(output[size..])
    ensures status != Success ==> output[..] == old(output[..]) && e.regs == old(e.regs)
  {
    hide Process, Standard;
    if !Accepts(configuration, size) {
      return InvalidArgument;
    }
    if !e.regs.keyValid {
      return InvalidArgument;
    }
    e.regs := e.regs.(cfg := CFG_SWAP, mode := configuration);
    e.regs := e.regs.(reverse := configuration == CFG_DECRYPT_CBC);
    SetHolding(e, iv);

    CryptConfigured(e, input, output, size);
    return Success;
  }

  /** The first bytes of a zero-padded last block are the OFB bytes of the short block. */
  lemma ShortBlock(core: Core, iv: Block, text: seq<Byte>, x: Block)
    requires var n := |text| % 16; x[..n] == text[|text| - n..]
    ensures var n := |text| % 16; var whole := |text| - n;
      Ofb(core.enc, iv, text)
      == Ofb(core.enc, iv, text[..whole]) + Xor(x, OfbBlock(core.enc, iv, whole / 16))[..n]
  {
    StreamShort(j => OfbBlock(core.enc, iv, j), text, x);
  }
}
