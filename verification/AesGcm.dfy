/** GCM as the driver runs it (drivers/aes/fsl_aes.c:783-1284). */
module AesGcm {
  import opened Bytes
  import opened AesEngine
  import opened AesBlocks
  import opened AesModes
  import opened AesCtr
  import opened NistModes
  import opened NistGcm

  // ---- What the driver computes, with its 32-bit lengths and its 128-bit increment ----

  /** A bit length as the driver writes it: 32 bits of 8 * n. */
  function LengthWord(n: nat): (s: seq<Byte>)
    ensures |s| == 4
  {
    ToBytes(4, (8 * n) % WORD_RANGE)
  }

  function CodedLengths(aadSize: nat, size: nat): Block {
    [0, 0, 0, 0] + LengthWord(aadSize) + [0, 0, 0, 0] + LengthWord(size)
  }

  function CodedJ0(core: Core, iv: seq<Byte>): Block {
    if |iv| == 12 then iv + [0, 0, 0, 1]
    else Ghash(core, Join(Pad(iv), CodedLengths(0, |iv|)))
  }

  /** The counter block of the first data block. */
  function CodedStart(core: Core, iv: seq<Byte>): Block {
    if |iv| == 12 then iv + [0, 0, 0, 2] else Up(CodedJ0(core, iv))
  }

  function CodedCrypt(core: Core, iv: seq<Byte>, text: seq<Byte>): (r: seq<Byte>)
    ensures |r| == |text|
  {
    Ctr(core.enc, CodedStart(core, iv), text)
  }

  function CodedTag(core: Core, iv: seq<Byte>, aad: seq<Byte>, c: seq<Byte>): Block {
    Xor(Ghash(core, Join(Join(Pad(aad), Pad(c)), CodedLengths(|aad|, |c|))), core.enc(CodedJ0(core, iv)))
  }

  /** The decrement before the tag restores the pre-counter block, for every IV. */
  lemma StartRestored(core: Core, iv: seq<Byte>)
    ensures Down(CodedStart(core, iv)) == CodedJ0(core, iv)
  {
    if |iv| == 12 {
      var start := iv + [0, 0, 0, 2];
      assert start[..15] == iv + [0, 0, 0];
      assert Down(start) == iv + [0, 0, 0] + [1];
    } else {
      hide Up, Down;
      DownUp(CodedJ0(core, iv));
    }
  }

  // ---- Hashing ----

  lemma HashProcess(core: Core, r: Registers, x: Block)
    requires r.cfg == CFG_SWAP_INTEXT_HASH_IN
    ensures Process(core, r, x) == r.(z := core.mul(Xor(r.z, x), r.y))
  {
    hide Xor, AddLow, SwapWords;
  }

  /** The registers after hashing the blocks of x. */
  ghost function Hashing(core: Core, r: Registers, x: seq<Byte>): Registers
    requires |x| % 16 == 0
  {
    r.(z := GhashFrom(core.mul, r.y, r.z, x))
  }

  /** Sends one block to a hash-only engine. */
  method HashBlock(e: Engine, data: array<Byte>, at: nat)
    requires at + 16 <= data.Length && e.regs.cfg == CFG_SWAP_INTEXT_HASH_IN
    modifies e
    ensures e.regs == Hashing(e.core, old(e.regs), data[at..at + 16])
  {
    hide Process, Xor, GhashFrom;
    ghost var x: Block := data[at..at + 16];
    HashProcess(e.core, e.regs, x);
    HashOne(e.core, e.regs, x);
    WriteText(e, data, at);
  }

  lemma HashOne(core: Core, r: Registers, x: Block)
    ensures Hashing(core, r, x) == r.(z := core.mul(Xor(r.z, x), r.y))
  {
    hide Xor, GhashFrom;
    GhashUnfold(core.mul, r.y, r.z, x);
    GhashUnfold(core.mul, r.y, r.z, []);
    assert x[..0] == [] && x[0..] == x;
  }

  /** A string hashed with its last block padded by zeroes: the IV and AAD loops. */
  method HashPadded(e: Engine, data: array<Byte>, n: nat)
    requires n <= data.Length && e.regs.cfg == CFG_SWAP_INTEXT_HASH_IN
    modifies e
    ensures e.regs == Hashing(e.core, old(e.regs), Pad(data[..n]))
  {
    hide Hashing, Pad;
    ghost var r := e.regs;
    var at := 0;
    GhashEmpty(e.core, r);
    assert data[..0] == [];
    while n - at >= 16
      invariant at <= n && at % 16 == 0
      invariant e.regs == Hashing(e.core, r, data[..at]) && e.regs.cfg == r.cfg
    {
      HashBlock(e, data, at);
      HashMore(e.core, r, data[..at], data[at..at + 16]);
      assert Join(data[..at], data[at..at + 16]) == data[..at + 16];
      at := at + 16;
    }
    if at < n {
      var temp := PadBlock(data, at, n - at);
      assert temp[0..16] == temp[..];
      HashBlock(e, temp, 0);
      HashMore(e.core, r, data[..at], Pad(data[at..n]));
      PadTail(data[..n], at);
      assert data[..n][..at] == data[..at] && data[..n][at..] == data[at..n];
    } else {
      PadWhole(data[..n]);
    }
  }

  lemma GhashEmpty(core: Core, r: Registers)
    ensures Hashing(core, r, []) == r
  {
  }

  lemma HashMore(core: Core, r: Registers, a: seq<Byte>, b: seq<Byte>)
    requires |a| % 16 == 0 && |b| % 16 == 0
    ensures Hashing(core, Hashing(core, r, a), b) == Hashing(core, r, Join(a, b))
    ensures Hashing(core, r, a).cfg == r.cfg && Hashing(core, r, Join(a, b)).cfg == r.cfg
  {
    GhashSplit(core.mul, r.y, r.z, a, b);
  }

  lemma PadWhole(s: seq<Byte>)
    requires |s| % 16 == 0
    ensures Pad(s) == s
  {
  }

  lemma PadTail(s: seq<Byte>, at: nat)
    requires at % 16 == 0 && at <= |s|
    ensures Pad(s) == Join(s[..at], Pad(s[at..]))
  {
    assert (|s| - at) % 16 == |s| % 16;
  }

  // ---- The steps of the driver ----

  /** ECB without the output swap leaves the cipher of the block in OUTTEXT, ready to be copied. */
  lemma EcbUnswapped(core: Core, r: Registers, x: Block)
    requires r.cfg == CFG_INTEXT_SWAP && r.mode == CFG_ENCRYPT_ECB && !r.reverse
    ensures var r' := Process(core, r, x);
      OutBlock(r') == core.enc(x) && r'.y == r.y && r'.z == r.z && !r'.reverse && r'.keyValid == r.keyValid
  {
    SwapWordsTwice(core.enc(x));
    hide Xor, AddLow, SwapWords;
  }

  /** The engine holds the hash sub-key and runs forward. */
  ghost predicate Keyed(e: Engine)
    reads e
  {
    e.regs.y == e.core.enc(ZERO_BLOCK) && !e.regs.reverse
  }

  /** Computes the hash sub-key and starts a new hash. */
  method LoadHashKey(e: Engine, blkZero: array<Byte>)
    requires blkZero.Length == 16 && blkZero[..] == ZERO_BLOCK && !e.regs.reverse
    modifies e
    ensures Keyed(e) && e.regs.z == ZERO_BLOCK && e.regs.keyValid == old(e.regs.keyValid)
  {
    e.regs := e.regs.(cfg := CFG_INTEXT_SWAP, mode := CFG_ENCRYPT_ECB);
    EcbUnswapped(e.core, e.regs, ZERO_BLOCK);
    hide Process, SwapWords;
    assert blkZero[0..16] == blkZero[..];
    WriteText(e, blkZero, 0);
    e.CopyToY();
  }

  /** Writes the 32-bit bit length of n bytes, most significant byte first. */
  method StoreLength(block: array<Byte>, at: nat, n: nat)
    requires block.Length == 16 && at + 4 <= 16
    modifies block
    ensures block[..] == Splice(old(block[..]), at, LengthWord(n))
  {
    hide SwapBytes, StoreWord, WordOfNat, Splice;
    WordOfNatBytes((8 * n) % WORD_RANGE);
    StoreUnaligned(block, at, SwapBytes(WordOfNat((8 * n) % WORD_RANGE)));
  }

  lemma CodedLengthsSplice(aadSize: nat, size: nat)
    ensures Splice(ZERO_BLOCK, 12, LengthWord(size)) == CodedLengths(0, size)
    ensures Splice(CodedLengths(0, size), 4, LengthWord(aadSize)) == CodedLengths(aadSize, size)
    ensures CodedLengths(0, 0) == ZERO_BLOCK
  {
    LengthWordZero();
    hide LengthWord;
  }

  lemma LengthWordZero()
    ensures LengthWord(0) == [0, 0, 0, 0]
  {
    hide ToBytes;
    ZeroBytes(4);
    assert (8 * 0) % WORD_RANGE == 0;
  }

  /** The counter for the first data block, from any IV. */
  method InitialCounter(e: Engine, iv: array<Byte>, ivSize: nat, blkZero: array<Byte>, blkJ0: array<Byte>)
    requires ivSize <= iv.Length && blkJ0 != iv && blkJ0 != blkZero
    requires blkZero.Length == blkJ0.Length == 16 && blkZero[..] == ZERO_BLOCK && blkJ0[..] == ZERO_BLOCK
    requires Keyed(e) && e.regs.z == ZERO_BLOCK
    modifies e, blkJ0
    ensures blkJ0[..] == CodedStart(e.core, iv[..ivSize])
    ensures Keyed(e) && e.regs.z == ZERO_BLOCK && e.regs.keyValid == old(e.regs.keyValid)
  {
    hide Up, GhashFrom, Pad, CodedLengths;
    if ivSize != 12 {
      HashIv(e, iv, ivSize);
      ReadSwapped(e.regs.z, blkJ0);
      Increment(blkJ0);
      LoadHashKey(e, blkZero);
    } else {
      CopyBytes(blkJ0, 0, iv, 0, 12);
      blkJ0[15] := 2;
      assert blkJ0[..] == iv[..12] + [0, 0, 0, 2];
    }
  }

  method HashIv(e: Engine, iv: array<Byte>, ivSize: nat)
    requires ivSize <= iv.Length && ivSize != 12 && Keyed(e) && e.regs.z == ZERO_BLOCK
    modifies e
    ensures e.regs.z == CodedJ0(e.core, iv[..ivSize]) && !e.regs.reverse && e.regs.keyValid == old(e.regs.keyValid)
  {
    hide GhashFrom, Pad, LengthWord, Splice, CodedLengths;
    e.regs := e.regs.(cfg := CFG_SWAP_INTEXT_HASH_IN);
    ghost var r := e.regs;
    HashPadded(e, iv, ivSize);
    var block := new Byte[16](i => 0);
    assert block[..] == ZERO_BLOCK;
    StoreLength(block, 12, ivSize);
    CodedLengthsSplice(0, ivSize);
    assert block[0..16] == block[..];
    HashBlock(e, block, 0);
    HashMore(e.core, r, Pad(iv[..ivSize]), CodedLengths(0, ivSize));
  }

  lemma {:induction false} RunHashes(core: Core, r: Registers, s: seq<Byte>)
    requires |s| % 16 == 0 && CounterSetup(r) && Hashes(r.cfg)
    ensures RunRegs(core, r, s).z
         == GhashFrom(core.mul, r.y, r.z, if HashesOutput(r.cfg) then RunOut(core, r, s) else s)
  {
    hide Process, Xor, GhashFrom, AddLow;
    var hashed := if HashesOutput(r.cfg) then RunOut(core, r, s) else s;
    GhashUnfold(core.mul, r.y, r.z, hashed);
    if s != [] {
      var n := |s| - 16;
      RunHashes(core, r, s[..n]);
      RunKeepsSetup(core, r, s[..n]);
      CtrProcess(core, RunRegs(core, r, s[..n]), s[n..]);
      assert hashed[..n] == if HashesOutput(r.cfg) then RunOut(core, r, s[..n]) else s[..n];
      assert hashed[n..] == if HashesOutput(r.cfg) then RunRegs(core, r, s).outtext else s[n..];
    }
  }

  /** Tag generation: the cipher of the pre-counter block, the length block, the tag register. */
  method FinishTag(e: Engine, blkJ0: array<Byte>, blkZero: array<Byte>, aadSize: nat, size: nat, blkTag: array<Byte>)
    requires blkJ0.Length == blkZero.Length == blkTag.Length == 16 && blkZero[..] == ZERO_BLOCK
    requires blkJ0 != blkZero && blkTag != blkZero && blkTag != blkJ0 && !e.regs.reverse
    modifies e, blkJ0, blkZero, blkTag
    ensures blkTag[..] == Xor(
      GhashFrom(e.core.mul, old(e.regs.y), old(e.regs.z), CodedLengths(aadSize, size)),
      e.core.enc(Down(old(blkJ0[..]))))
    ensures e.regs.keyValid == old(e.regs.keyValid)
  {
    hide Process, SwapWords, GhashFrom, Xor, Down, LengthWord, Splice, CodedLengths;
    e.regs := e.regs.(cfg := CFG_INTEXT_SWAP, mode := CFG_ENCRYPT_ECB);
    Decrement(blkJ0);
    EcbUnswapped(e.core, e.regs, blkJ0[..]);
    assert blkJ0[0..16] == blkJ0[..];
    WriteText(e, blkJ0, 0);
    e.regs := e.regs.(cfg := CFG_SWAP_INTEXT_HASH_IN);
    CodedLengthsSplice(aadSize, size);
    if size != 0 {
      StoreLength(blkZero, 12, size);
    }
    if aadSize != 0 {
      StoreLength(blkZero, 4, aadSize);
    }
    assert blkZero[0..16] == blkZero[..];
    HashBlock(e, blkZero, 0);
    ReadSwapped(Tag(e.regs), blkTag);
  }

  /** The string that is hashed as ciphertext: what comes out of encryption, what goes into decryption. */
  ghost function Ciphertext(encrypt: bool, text: seq<Byte>, crypted: seq<Byte>): seq<Byte> {
    if encrypt then crypted else text
  }

  /** Counter mode over the data with the ciphertext added to the hash, the last block padded by
      hand when encrypting and by the input padding when decrypting. */
  method CryptData(e: Engine, encrypt: bool, src: array<Byte>, size: nat, dst: array<Byte>)
    requires size <= src.Length && size <= dst.Length && CounterSetup(e.regs)
    requires e.regs.cfg == if encrypt then CFG_SWAP_CRYPT_HASH_OUT else CFG_SWAP_CRYPT_HASH_IN
    modifies e, dst
    ensures dst[..] == Ctr(e.core.enc, old(e.regs.holding), old(src[..size])) + old(dst[size..])
    ensures e.regs.z == GhashFrom(e.core.mul, old(e.regs.y), old(e.regs.z),
      Pad(Ciphertext(encrypt, old(src[..size]), Ctr(e.core.enc, old(e.regs.holding), old(src[..size])))))
    ensures !e.regs.reverse && e.regs.y == old(e.regs.y) && e.regs.keyValid == old(e.regs.keyValid)
  {
    hide Process, Ctr, AddLow, GhashFrom, Pad, RunRegs, RunOut, Xor;
    var n := size % 16;
    var whole := size - n;
    ghost var r, text := e.regs, src[..size];
    assert text[..whole] == src[..whole];
    RunIsCtr(e.core, r, text[..whole]);
    RunHashes(e.core, r, text[..whole]);
    RunKeepsSetup(e.core, r, text[..whole]);
    RunBlocks(e, src, dst, whole);
    ghost var crypted := Ctr(e.core.enc, r.holding, text);
    if n == 0 {
      assert text[..whole] == text;
      PadWhole(Ciphertext(encrypt, text, crypted));
    } else {
      assert src[whole..size] == text[whole..] by { assert src[whole..size] == src[whole..][..size - whole]; }
      ShortData(e, encrypt, src, whole, size, dst, r, text);
    }
  }

  /** What is known after the whole blocks of a message have been processed and hashed. */
  ghost predicate AfterWhole(core: Core, now: Registers, encrypt: bool, whole: nat, r: Registers, text: seq<Byte>)
    requires whole % 16 == 0 && whole <= |text|
  {
    && CounterSetup(r) && SameSetup(r, now)
    && r.cfg == (if encrypt then CFG_SWAP_CRYPT_HASH_OUT else CFG_SWAP_CRYPT_HASH_IN)
    && now.holding == AddLow(r.holding, whole / 16)
    && now.z == GhashFrom(core.mul, r.y, r.z,
         Ciphertext(encrypt, text[..whole], Ctr(core.enc, r.holding, text[..whole])))
  }

  method ShortData(e: Engine, encrypt: bool, src: array<Byte>, whole: nat, size: nat, dst: array<Byte>,
                   ghost r: Registers, ghost text: seq<Byte>)
    requires whole % 16 == 0 && whole < size < whole + 16 && size == |text|
    requires size <= src.Length && size <= dst.Length && src[whole..size] == text[whole..]
    requires AfterWhole(e.core, e.regs, encrypt, whole, r, text)
    requires dst[..whole] == Ctr(e.core.enc, r.holding, text[..whole])
    modifies e, dst
    ensures dst[..] == Ctr(e.core.enc, r.holding, text) + old(dst[size..])
    ensures e.regs.z == GhashFrom(e.core.mul, r.y, r.z,
      Pad(Ciphertext(encrypt, text, Ctr(e.core.enc, r.holding, text))))
    ensures !e.regs.reverse && e.regs.y == r.y && e.regs.keyValid == old(e.regs.keyValid)
  {
    hide Process, Ctr, AddLow, GhashFrom, Pad, Xor, Splice;
    var n := size - whole;
    ghost var x := PadShort(text[whole..]);
    assert src[whole..whole + n] == text[whole..];
    ghost var z0, before := e.regs.z, dst[..];
    if encrypt {
      e.regs := e.regs.(cfg := CFG_SWAP);
    }
    CtrProcess(e.core, e.regs, x);
    ProcessKeeps(e.core, e.regs, x);
    var temp := CryptShort(e, src, whole, n);
    ShortCtr(e.core, r.holding, text, whole);
    ghost var crypted := Ctr(e.core.enc, r.holding, text);
    assert temp[..n] == crypted[whole..];
    CopyBytes(dst, whole, temp, 0, n);
    SpliceTail(before, whole, crypted);
    if encrypt {
      HashOutput(e, temp, n, whole, r, crypted);
    } else {
      HashOne(e.core, r.(z := z0), x);
      HashShort(e.core, r, text, whole);
    }
  }

  lemma SpliceTail(before: seq<Byte>, whole: nat, s: seq<Byte>)
    requires whole <= |s| <= |before| && before[..whole] == s[..whole]
    ensures Splice(before, whole, s[whole..]) == s + before[|s|..]
  {
    assert s == s[..whole] + s[whole..];
  }

  /** The short output block is padded by hand and hashed. */
  method HashOutput(e: Engine, temp: array<Byte>, n: nat, whole: nat, ghost r: Registers, ghost crypted: seq<Byte>)
    requires 0 < n < 16 <= temp.Length && whole % 16 == 0 && |crypted| == whole + n && temp[..n] == crypted[whole..]
    requires e.regs.y == r.y && e.regs.z == GhashFrom(e.core.mul, r.y, r.z, crypted[..whole])
    modifies e
    ensures e.regs.z == GhashFrom(e.core.mul, r.y, r.z, Pad(crypted))
    ensures e.regs.y == r.y && e.regs.reverse == old(e.regs.reverse) && e.regs.keyValid == old(e.regs.keyValid)
  {
    hide GhashFrom, Pad;
    var outputBlk := PadBlock(temp, 0, n);
    e.regs := e.regs.(cfg := CFG_SWAP_INTEXT_HASH_IN);
    assert outputBlk[0..16] == outputBlk[..];
    HashBlock(e, outputBlk, 0);
    HashShort(e.core, r, crypted, whole);
  }

  /** The short block in counter mode: padded, processed and cut. */
  lemma ShortCtr(core: Core, icb: Block, text: seq<Byte>, whole: nat)
    requires whole % 16 == 0 && whole < |text| < whole + 16
    ensures var c := Ctr(core.enc, icb, text);
      && c[..whole] == Ctr(core.enc, icb, text[..whole])
      && c[whole..] == Xor(PadShort(text[whole..]), core.enc(AddLow(icb, whole / 16)))[..|text| - whole]
  {
    hide AddLow;
    assert |text| % 16 == |text| - whole;
    StreamShort(j => core.enc(AddLow(icb, j)), text, Pad(text[whole..]));
  }

  /** Hashing the padded tail after the whole blocks hashes the padded string. */
  lemma HashShort(core: Core, r: Registers, c: seq<Byte>, whole: nat)
    requires whole % 16 == 0 && whole <= |c|
    ensures GhashFrom(core.mul, r.y, GhashFrom(core.mul, r.y, r.z, c[..whole]), Pad(c[whole..]))
         == GhashFrom(core.mul, r.y, r.z, Pad(c))
  {
    hide GhashFrom, Pad;
    PadTail(c, whole);
    GhashSplit(core.mul, r.y, r.z, c[..whole], Pad(c[whole..]));
  }

  // ---- The call ----

  predicate ValidTagSize(tagSize: nat) {
    12 <= tagSize <= 16 || tagSize == 4 || tagSize == 8
  }

  /** The argument check; sizes are 32-bit, so their sum wraps. */
  predicate ValidArguments(src: array?<Byte>, iv: array?<Byte>, aad: array?<Byte>, dst: array?<Byte>,
                           inputSize: nat, ivSize: nat, aadSize: nat, tagSize: nat)
  {
    && (ivSize != 0 ==> iv != null)
    && (aadSize != 0 ==> aad != null)
    && (inputSize != 0 ==> src != null && dst != null)
    && ValidTagSize(tagSize)
    && (inputSize + ivSize + aadSize) % WORD_RANGE != 0
    && ivSize >= 1
  }

  /** Arguments whose sizes add up in 32 bits are accepted exactly with an IV, with every buffer that has a
      size, and with one of the seven tag sizes. */
  lemma ArgumentsAccepted(src: array?<Byte>, iv: array?<Byte>, aad: array?<Byte>, dst: array?<Byte>,
                          inputSize: nat, ivSize: nat, aadSize: nat, tagSize: nat)
    requires inputSize + ivSize + aadSize < WORD_RANGE
    ensures ValidArguments(src, iv, aad, dst, inputSize, ivSize, aadSize, tagSize) <==>
      && iv != null && ivSize > 0
      && (aad == null ==> aadSize == 0)
      && (src == null || dst == null ==> inputSize == 0)
      && tagSize in {4, 8, 12, 13, 14, 15, 16}
  {
  }

  /** The first n bytes of a buffer that may be absent. */
  ghost function Contents(a: array?<Byte>, n: nat): seq<Byte>
    reads a
    requires a != null ==> n <= a.Length
  {
    if a == null then [] else a[..n]
  }

  /** The first n bytes of the tag of a call: over what comes out when encrypting, over what goes in
      when decrypting. */
  ghost function TagBytes(core: Core, encrypt: bool, iv: seq<Byte>, aad: seq<Byte>, text: seq<Byte>, n: nat): seq<Byte>
  {
    var tag := CodedTag(core, iv, aad, Ciphertext(encrypt, text, CodedCrypt(core, iv, text)));
    if n <= 16 then tag[..n] else tag
  }

  method GcmProcess(e: Engine?, encrypt: bool, src: array?<Byte>, inputSize: nat, iv: array?<Byte>, ivSize: nat,
                    aad: array?<Byte>, aadSize: nat, dst: array?<Byte>, tag: array?<Byte>, tagSize: nat)
    returns (status: Status)
    requires src != null ==> inputSize <= src.Length
    requires dst != null ==> inputSize <= dst.Length
    requires iv != null ==> ivSize <= iv.Length
    requires aad != null ==> aadSize <= aad.Length
    requires tag != null ==> tagSize <= tag.Length && tag != dst
    modifies e, dst, tag
    ensures status == InvalidArgument <==>
      e == null || !ValidArguments(src, iv, aad, dst, inputSize, ivSize, aadSize, tagSize) || !old(e.regs.keyValid)
    ensures e != null ==> e.regs.keyValid == old(e.regs.keyValid)
    ensures status == InvalidArgument && dst != null ==> dst[..] == old(dst[..])
    ensures (status == InvalidArgument || !encrypt) && tag != null ==> tag[..] == old(tag[..])
    ensures status != InvalidArgument && dst != null ==>
      dst[..] == CodedCrypt(e.core, old(Contents(iv, ivSize)), old(Contents(src, inputSize))) + old(dst[inputSize..])
    ensures status != InvalidArgument && encrypt ==> status == Success
    ensures status != InvalidArgument && encrypt && tag != null ==>
      tag[..] ==
      TagBytes(e.core, true, old(Contents(iv, ivSize)), old(Contents(aad, aadSize)), old(Contents(src, inputSize)),
               tagSize)
      + old(tag[tagSize..])
    ensures status != InvalidArgument && !encrypt ==>
      (status == Success <==>
       tag == null || old(tag[..tagSize]) ==
       TagBytes(e.core, false, old(Contents(iv, ivSize)), old(Contents(aad, aadSize)), old(Contents(src, inputSize)),
                tagSize))
  {
    hide CodedCrypt, CodedTag;
    if e == null || !ValidArguments(src, iv, aad, dst, inputSize, ivSize, aadSize, tagSize) {
      return InvalidArgument;
    }
    if !e.regs.keyValid {
      return InvalidArgument;
    }
    var blkTag := GcmBody(e, encrypt, src, inputSize, iv, ivSize, aad, aadSize, dst);
    status := Success;
    if tag != null {
      status := UseTag(encrypt, tag, blkTag, tagSize);
    }
  }

  /** The computed tag is stored when encrypting and compared when decrypting. */
  method UseTag(encrypt: bool, tag: array<Byte>, blkTag: array<Byte>, tagSize: nat) returns (status: Status)
    requires tagSize <= tag.Length && tagSize <= blkTag.Length == 16 && tag != blkTag
    modifies tag
    ensures encrypt ==> status == Success && tag[..] == blkTag[..tagSize] + old(tag[tagSize..])
    ensures !encrypt ==> tag[..] == old(tag[..])
    ensures !encrypt ==> status == if tag[..tagSize] == blkTag[..tagSize] then Success else Fail
  {
    status := Success;
    if encrypt {
      CopyBytes(tag, 0, blkTag, 0, tagSize);
    } else {
      var same := EqualBytes(tag, blkTag, tagSize);
      if !same {
        status := Fail;
      }
    }
  }

  /** The comparison looks at every byte and gathers the differences. */
  method EqualBytes(a: array<Byte>, b: array<Byte>, n: nat) returns (same: bool)
    requires n <= a.Length && n <= b.Length
    ensures same <==> a[..n] == b[..n]
  {
    var i, equal: bv32 := 0, 0;
    while i < n
      invariant i <= n
      invariant equal == 0 <==> a[..i] == b[..i]
    {
      var chXor := (a[i] as bv32) ^ (b[i] as bv32);
      Gather(equal, a[i], b[i]);
      assert a[..i + 1] == a[..i] + [a[i]] && b[..i + 1] == b[..i] + [b[i]];
      equal := equal | chXor;
      i := i + 1;
    }
    return equal == 0;
  }

  lemma Gather(acc: bv32, x: Byte, y: Byte)
    ensures acc | ((x as bv32) ^ (y as bv32)) == 0 <==> acc == 0 && x == y
  {
  }

  /** Everything between the argument check and the use of the tag. */
  method GcmBody(e: Engine, encrypt: bool, src: array?<Byte>, inputSize: nat, iv: array<Byte>, ivSize: nat,
                 aad: array?<Byte>, aadSize: nat, dst: array?<Byte>)
    returns (blkTag: array<Byte>)
    requires (src == null || dst == null) ==> inputSize == 0
    requires src != null ==> inputSize <= src.Length
    requires dst != null ==> inputSize <= dst.Length
    requires ivSize <= iv.Length
    requires if aad == null then aadSize == 0 else aadSize <= aad.Length
    modifies e, dst
    ensures fresh(blkTag) && blkTag.Length == 16 && e.regs.keyValid == old(e.regs.keyValid)
    ensures dst != null ==>
      dst[..] == CodedCrypt(e.core, old(iv[..ivSize]), old(Contents(src, inputSize))) + old(dst[inputSize..])
    ensures blkTag[..] == CodedTag(e.core, old(iv[..ivSize]), old(Contents(aad, aadSize)),
      Ciphertext(encrypt, old(Contents(src, inputSize)),
                 CodedCrypt(e.core, old(iv[..ivSize]), old(Contents(src, inputSize)))))
  {
    hide GhashFrom, Pad, CodedStart, Up, Down, Ctr, CodedLengths, Xor;
    ghost var nonce, extra, text := iv[..ivSize], Contents(aad, aadSize), Contents(src, inputSize);
    var blkZero := new Byte[16](i => 0);
    var blkJ0 := new Byte[16](i => 0);
    blkTag := new Byte[16](i => 0);
    assert blkZero[..] == ZERO_BLOCK && blkJ0[..] == ZERO_BLOCK;
    e.regs := e.regs.(reverse := false);
    LoadHashKey(e, blkZero);
    InitialCounter(e, iv, ivSize, blkZero, blkJ0);
    HashAad(e, aad, aadSize);

    ghost var z0 := e.regs.z;
    ghost var c := Ciphertext(encrypt, text, CodedCrypt(e.core, nonce, text));
    CryptStage(e, encrypt, src, inputSize, dst, blkJ0);
    HashedInOrder(e.core, extra, c);
    StartRestored(e.core, nonce);
    FinishTag(e, blkJ0, blkZero, aadSize, inputSize, blkTag);
  }

  /** Puts the engine in counter mode with the hash running and processes the data, if any. */
  method CryptStage(e: Engine, encrypt: bool, src: array?<Byte>, inputSize: nat, dst: array?<Byte>, blkJ0: array<Byte>)
    requires (src == null || dst == null) ==> inputSize == 0
    requires src != null ==> inputSize <= src.Length
    requires dst != null ==> inputSize <= dst.Length
    requires blkJ0.Length == 16 && blkJ0 != dst && !e.regs.reverse
    modifies e, dst
    ensures dst != null ==>
      dst[..] == Ctr(e.core.enc, old(blkJ0[..]), old(Contents(src, inputSize))) + old(dst[inputSize..])
    ensures e.regs.z == GhashFrom(e.core.mul, old(e.regs.y), old(e.regs.z), Pad(Ciphertext(encrypt,
      old(Contents(src, inputSize)), Ctr(e.core.enc, old(blkJ0[..]), old(Contents(src, inputSize))))))
    ensures !e.regs.reverse && e.regs.y == old(e.regs.y) && e.regs.keyValid == old(e.regs.keyValid)
  {
    hide GhashFrom, Pad, Ctr;
    e.regs := e.regs.(cfg := if encrypt then CFG_SWAP_CRYPT_HASH_OUT else CFG_SWAP_CRYPT_HASH_IN);
    e.regs := e.regs.(mode := CFG_CRYPT_CTR);
    SetHolding(e, blkJ0);
    e.regs := e.regs.(ctrIncr := 1);
    assert blkJ0[..16] == blkJ0[..];
    if inputSize != 0 {
      CryptData(e, encrypt, src, inputSize, dst);
    } else {
      PadWhole([]);
      GhashUnfold(e.core.mul, e.regs.y, e.regs.z, []);
      assert Ctr(e.core.enc, blkJ0[..], []) == [] && Contents(src, 0) == [];
    }
  }

  method HashAad(e: Engine, aad: array?<Byte>, aadSize: nat)
    requires if aad == null then aadSize == 0 else aadSize <= aad.Length
    requires Keyed(e)
    modifies e
    ensures Keyed(e) && e.regs.z == GhashFrom(e.core.mul, e.regs.y, old(e.regs.z), Pad(Contents(aad, aadSize)))
    ensures e.regs.keyValid == old(e.regs.keyValid)
  {
    hide GhashFrom, Pad;
    if aadSize != 0 {
      e.regs := e.regs.(cfg := CFG_SWAP_INTEXT_HASH_IN);
      HashPadded(e, aad, aadSize);
    } else {
      assert Contents(aad, aadSize) == [];
      PadWhole([]);
      GhashUnfold(e.core.mul, e.regs.y, e.regs.z, []);
    }
  }

  /** AAD, ciphertext and lengths hashed one after the other. */
  lemma HashedInOrder(core: Core, aad: seq<Byte>, c: seq<Byte>)
    ensures var h := core.enc(ZERO_BLOCK);
      var z := GhashFrom(core.mul, h, GhashFrom(core.mul, h, ZERO_BLOCK, Pad(aad)), Pad(c));
      GhashFrom(core.mul, h, z, CodedLengths(|aad|, |c|))
      == Ghash(core, Join(Join(Pad(aad), Pad(c)), CodedLengths(|aad|, |c|)))
  {
    hide GhashFrom, Pad, CodedLengths;
    var h := core.enc(ZERO_BLOCK);
    GhashSplit(core.mul, h, ZERO_BLOCK, Pad(aad), Pad(c));
    GhashSplit(core.mul, h, ZERO_BLOCK, Join(Pad(aad), Pad(c)), CodedLengths(|aad|, |c|));
  }

  /** The decrypting entry point compares against its own copy of the tag, made in a buffer of sixteen
      bytes before the tag size is looked at; a longer tag overruns it, and the model stops there. */
  method DecryptTagGcm(e: Engine?, ciphertext: array?<Byte>, plaintext: array?<Byte>, size: nat, iv: array?<Byte>,
                       ivSize: nat, aad: array?<Byte>, aadSize: nat, tag: array?<Byte>, tagSize: nat)
    returns (status: Status, overrun: bool)
    requires ciphertext != null ==> size <= ciphertext.Length
    requires plaintext != null ==> size <= plaintext.Length
    requires iv != null ==> ivSize <= iv.Length
    requires aad != null ==> aadSize <= aad.Length
    requires tag != null ==> tagSize <= tag.Length
    modifies e, plaintext
    ensures overrun <==> tag != null && tagSize > 16
    ensures !overrun ==> (status == InvalidArgument <==>
      || e == null || !old(e.regs.keyValid)
      || !ValidArguments(ciphertext, iv, aad, plaintext, size, ivSize, aadSize, tagSize))
    ensures !overrun && status == InvalidArgument && plaintext != null ==> plaintext[..] == old(plaintext[..])
    ensures !overrun && status != InvalidArgument && plaintext != null ==>
      plaintext[..] ==
      CodedCrypt(e.core, old(Contents(iv, ivSize)), old(Contents(ciphertext, size))) + old(plaintext[size..])
    ensures !overrun && status != InvalidArgument ==>
      (status == Success <==>
       tag == null || old(tag[..tagSize]) ==
       TagBytes(e.core, false, old(Contents(iv, ivSize)), old(Contents(aad, aadSize)), old(Contents(ciphertext, size)),
                tagSize))
  {
    hide CodedCrypt, CodedTag, ValidArguments, TagBytes;
    overrun := false;
    if tag == null {
      status := GcmProcess(e, false, ciphertext, size, iv, ivSize, aad, aadSize, plaintext, null, tagSize);
    } else {
      var temp := new Byte[16](i => 0);
      if tagSize > temp.Length {
        return Fail, true;
      }
      CopyBytes(temp, 0, tag, 0, tagSize);
      assert temp[..tagSize] == tag[..tagSize];
      status := GcmProcess(e, false, ciphertext, size, iv, ivSize, aad, aadSize, plaintext, temp, tagSize);
    }
  }
}
