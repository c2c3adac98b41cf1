/** When the driver's GCM is the GCM of NIST SP 800-38D, and that it always undoes itself
    (drivers/aes/fsl_aes.c:994-1284). */
module AesGcmConformance {
  import opened Bytes
  import opened AesEngine
  import opened AesBlocks
  import opened AesCtr
  import opened AesGcm
  import opened NistModes
  import opened NistGcm

  /** Sizes whose bit length fits 32 bits. */
  const LENGTH_LIMIT: nat := 0x2000_0000

  lemma {:induction false} ValueAfterZeros(k: nat, s: seq<Byte>)
    ensures Value(Zeros(k) + s) == Value(s)
  {
    if s == [] {
      if k > 0 {
        ValueAfterZeros(k - 1, []);
        var z := Zeros(k) + [];
        assert z[..k - 1] == Zeros(k - 1) + [] && z[k - 1] == 0;
      }
    } else {
      var n := |s| - 1;
      ValueAfterZeros(k, s[..n]);
      assert (Zeros(k) + s)[..k + n] == Zeros(k) + s[..n];
    }
  }

  lemma LongRange()
    ensures Range(8) > 8 * WORD_RANGE
  {
    RangeOfWord();
    assert Range(5) == 256 * Range(4);
    assert Range(6) >= Range(5) && Range(7) >= Range(6) && Range(8) >= Range(7);
  }

  /** The 64-bit length field is right exactly when the bit length fits in 32 bits. */
  lemma LengthFieldExact(n: nat)
    requires n < WORD_RANGE
    ensures ToBytes(8, 8 * n) == [0, 0, 0, 0] + LengthWord(n) <==> n < LENGTH_LIMIT
  {
    LongRange();
    RangeOfWord();
    hide Value, ToBytes, Range;
    var coded := Zeros(4) + LengthWord(n);
    assert Zeros(4) == [0, 0, 0, 0];
    ValueAfterZeros(4, LengthWord(n));
    ValueToBytes(4, (8 * n) % WORD_RANGE);
    ValueToBytes(8, 8 * n);
    if n < LENGTH_LIMIT {
      ValueInjective(coded, ToBytes(8, 8 * n));
    }
  }

  lemma LengthBlockExact(aadSize: nat, size: nat)
    requires aadSize < WORD_RANGE && size < WORD_RANGE
    ensures CodedLengths(aadSize, size) == LengthBlock(aadSize, size)
      <==> aadSize < LENGTH_LIMIT && size < LENGTH_LIMIT
  {
    hide ToBytes, LengthWord;
    LengthFieldExact(aadSize);
    LengthFieldExact(size);
    var coded, right := CodedLengths(aadSize, size), LengthBlock(aadSize, size);
    assert coded[..8] == [0, 0, 0, 0] + LengthWord(aadSize) && coded[8..] == [0, 0, 0, 0] + LengthWord(size);
    assert right[..8] == ToBytes(8, 8 * aadSize) && right[8..] == ToBytes(8, 8 * size);
    assert coded == coded[..8] + coded[8..] && right == right[..8] + right[8..];
  }

  lemma J0Exact(core: Core, iv: seq<Byte>)
    requires |iv| < LENGTH_LIMIT
    ensures CodedJ0(core, iv) == J0(core, iv)
  {
    hide GhashFrom, CodedLengths, LengthBlock, Pad;
    LengthBlockExact(0, |iv|);
  }

  /** The first counter is inc32 of the pre-counter block unless that block ends in 32 one bits. */
  lemma StartExact(core: Core, iv: seq<Byte>)
    ensures CodedStart(core, iv) == AddLow(CodedJ0(core, iv), 1)
      <==> |iv| == 12 || !AllOnes(CodedJ0(core, iv)[12..])
  {
    var j := CodedJ0(core, iv);
    if |iv| == 12 {
      StartRestored(core, iv);
      DownUp(CodedStart(core, iv));
      UpIsInc32(j);
      assert j[15] == 1;
    } else {
      hide Up, AddLow;
      UpIsInc32(j);
    }
  }

  /** Decryption refines section 7.2: the same plaintext, and the same tag to compare with. */
  lemma DecryptRefines(core: Core, iv: seq<Byte>, aad: seq<Byte>, c: seq<Byte>)
    requires |iv| < LENGTH_LIMIT && |aad| < LENGTH_LIMIT && |c| < LENGTH_LIMIT
    requires |iv| == 12 || !AllOnes(J0(core, iv)[12..])
    ensures CodedCrypt(core, iv, c) == Gcm(core, iv, c)
    ensures CodedTag(core, iv, aad, c) == GcmTag(core, iv, aad, c)
  {
    hide CodedJ0, J0, CodedStart, AddLow, Ctr, GhashFrom, CodedLengths, LengthBlock, Pad, Xor;
    J0Exact(core, iv);
    StartExact(core, iv);
    LengthBlockExact(|aad|, |c|);
  }

  /** Encryption refines section 7.1, ciphertext and tag. */
  lemma EncryptRefines(core: Core, iv: seq<Byte>, aad: seq<Byte>, p: seq<Byte>)
    requires |iv| < LENGTH_LIMIT && |aad| < LENGTH_LIMIT && |p| < LENGTH_LIMIT
    requires |iv| == 12 || !AllOnes(J0(core, iv)[12..])
    ensures CodedCrypt(core, iv, p) == Gcm(core, iv, p)
    ensures CodedTag(core, iv, aad, CodedCrypt(core, iv, p)) == GcmTag(core, iv, aad, Gcm(core, iv, p))
  {
    hide CodedTag, GcmTag, J0;
    DecryptRefines(core, iv, aad, p);
    DecryptRefines(core, iv, aad, Gcm(core, iv, p));
  }

  /** Then the tag a call stores or asks for is the standard's, cut to its first bytes. */
  lemma TagBytesRefine(core: Core, iv: seq<Byte>, aad: seq<Byte>, text: seq<Byte>, tagSize: nat)
    requires |iv| < LENGTH_LIMIT && |aad| < LENGTH_LIMIT && |text| < LENGTH_LIMIT && tagSize <= 16
    requires |iv| == 12 || !AllOnes(J0(core, iv)[12..])
    ensures TagBytes(core, true, iv, aad, text, tagSize) == GcmTag(core, iv, aad, Gcm(core, iv, text))[..tagSize]
    ensures TagBytes(core, false, iv, aad, text, tagSize) == GcmTag(core, iv, aad, text)[..tagSize]
  {
    hide CodedTag, GcmTag, J0, CodedCrypt, Gcm;
    EncryptRefines(core, iv, aad, text);
    DecryptRefines(core, iv, aad, text);
  }

  /** For a block or more of data, the ciphertext is the standard's exactly when the pre-counter
      block of a long IV does not end in 32 one bits. */
  lemma CiphertextExact(core: Core, iv: seq<Byte>, p: seq<Byte>)
    requires Permutation(core) && |iv| < LENGTH_LIMIT && |p| >= 16
    ensures CodedCrypt(core, iv, p) == Gcm(core, iv, p) <==> |iv| == 12 || !AllOnes(J0(core, iv)[12..])
  {
    hide CodedJ0, J0, CodedStart, AddLow, Ctr, Xor;
    J0Exact(core, iv);
    StartExact(core, iv);
    var start, right := CodedStart(core, iv), AddLow(J0(core, iv), 1);
    FirstBlock(core.enc, start, p);
    FirstBlock(core.enc, right, p);
    if start != right {
      DifferentKeys(core, p[..16], start, right);
    }
  }

  /** Multiplying by the hash sub-key loses nothing, as in a field with a nonzero sub-key. */
  ghost predicate HashInjective(core: Core) {
    forall a: Block, b: Block | core.mul(a, core.enc(ZERO_BLOCK)) == core.mul(b, core.enc(ZERO_BLOCK)) :: a == b
  }

  /** Two hashes that part only in their last block are equal exactly when that block is. */
  lemma LastBlockDecides(core: Core, x: seq<Byte>, a: Block, b: Block)
    requires HashInjective(core) && |x| % 16 == 0
    ensures Ghash(core, Join(x, a)) == Ghash(core, Join(x, b)) <==> a == b
  {
    hide Xor, GhashFrom;
    var h := core.enc(ZERO_BLOCK);
    var z := GhashFrom(core.mul, h, ZERO_BLOCK, x);
    GhashUnfold(core.mul, h, ZERO_BLOCK, Join(x, a));
    GhashUnfold(core.mul, h, ZERO_BLOCK, Join(x, b));
    assert Join(x, a)[..|x|] == x == Join(x, b)[..|x|] && Join(x, a)[|x|..] == a && Join(x, b)[|x|..] == b;
    XorCancels(z, a);
    XorCancels(z, b);
  }

  lemma XorRightCancels(a: Block, b: Block, mask: Block)
    ensures Xor(a, mask) == Xor(b, mask) <==> a == b
  {
    hide Xor;
    XorInvolution(a, mask);
    XorInvolution(b, mask);
  }

  /** The pre-counter block is the standard's exactly when the bit length of the IV fits 32 bits. */
  lemma J0LengthExact(core: Core, iv: seq<Byte>)
    requires HashInjective(core) && |iv| < WORD_RANGE
    ensures CodedJ0(core, iv) == J0(core, iv) <==> |iv| < LENGTH_LIMIT
  {
    hide Ghash, CodedLengths, LengthBlock, Pad;
    LengthBlockExact(0, |iv|);
    LastBlockDecides(core, Pad(iv), CodedLengths(0, |iv|), LengthBlock(0, |iv|));
  }

  /** Sizes the 32-bit length fields can hold. */
  predicate LengthsFit(aad: seq<Byte>, c: seq<Byte>) { |aad| < LENGTH_LIMIT && |c| < LENGTH_LIMIT }

  /** The tag is the standard's exactly when all bit lengths fit 32 bits.  With wrong lengths in both
      the IV and the data hash two errors could meet, so at most one of them is. */
  lemma TagExact(core: Core, iv: seq<Byte>, aad: seq<Byte>, c: seq<Byte>)
    requires Permutation(core) && HashInjective(core)
    requires |iv| < WORD_RANGE && |aad| < WORD_RANGE && |c| < WORD_RANGE
    requires |iv| < LENGTH_LIMIT || LengthsFit(aad, c)
    ensures CodedTag(core, iv, aad, c) == GcmTag(core, iv, aad, c) <==> |iv| < LENGTH_LIMIT && LengthsFit(aad, c)
  {
    hide Ghash, CodedJ0, J0, CodedLengths, LengthBlock, Pad, Xor;
    J0LengthExact(core, iv);
    LengthBlockExact(|aad|, |c|);
    var x, coded, right := Join(Pad(aad), Pad(c)), CodedLengths(|aad|, |c|), LengthBlock(|aad|, |c|);
    LastBlockDecides(core, x, coded, right);
    var codedHash, hash := Ghash(core, Join(x, coded)), Ghash(core, Join(x, right));
    var codedMask, mask := core.enc(CodedJ0(core, iv)), core.enc(J0(core, iv));
    assert core.dec(codedMask) == CodedJ0(core, iv) && core.dec(mask) == J0(core, iv);
    XorRightCancels(codedHash, hash, mask);
    XorCancels(hash, codedMask);
    XorCancels(hash, mask);
  }

  /** The pre-counter block can be counted up in its low word alone. */
  ghost predicate CountableIv(core: Core, iv: seq<Byte>) { |iv| == 12 || !AllOnes(J0(core, iv)[12..]) }

  /** Section 7.1 whole: ciphertext and tag are the standard's exactly when the sizes fit and, with data
      to encrypt, the IV can be counted up. */
  lemma EncryptExact(core: Core, iv: seq<Byte>, aad: seq<Byte>, p: seq<Byte>)
    requires Permutation(core) && HashInjective(core)
    requires |iv| < WORD_RANGE && |aad| < WORD_RANGE && |p| < WORD_RANGE
    requires |iv| < LENGTH_LIMIT || LengthsFit(aad, p)
    requires |p| == 0 || |p| >= 16 || CountableIv(core, iv)
    ensures CodedCrypt(core, iv, p) == Gcm(core, iv, p)
            && CodedTag(core, iv, aad, CodedCrypt(core, iv, p)) == GcmTag(core, iv, aad, Gcm(core, iv, p))
      <==> |iv| < LENGTH_LIMIT && LengthsFit(aad, p) && (p == [] || CountableIv(core, iv))
  {
    hide CodedCrypt, Gcm, CodedTag, GcmTag, J0;
    TagExact(core, iv, aad, Gcm(core, iv, p));
    if |iv| < LENGTH_LIMIT {
      if |p| >= 16 {
        CiphertextExact(core, iv, p);
      }
      if LengthsFit(aad, p) && CountableIv(core, iv) {
        EncryptRefines(core, iv, aad, p);
      }
    }
  }

  /** Section 7.2: the compared tag is the standard's exactly then, and the plaintext too. */
  lemma DecryptExact(core: Core, iv: seq<Byte>, aad: seq<Byte>, c: seq<Byte>)
    requires Permutation(core) && HashInjective(core)
    requires |iv| < WORD_RANGE && |aad| < WORD_RANGE && |c| < WORD_RANGE
    requires |iv| < LENGTH_LIMIT || LengthsFit(aad, c)
    requires |c| == 0 || |c| >= 16 || CountableIv(core, iv)
    ensures CodedCrypt(core, iv, c) == Gcm(core, iv, c) && CodedTag(core, iv, aad, c) == GcmTag(core, iv, aad, c)
      <==> |iv| < LENGTH_LIMIT && LengthsFit(aad, c) && (c == [] || CountableIv(core, iv))
  {
    hide CodedCrypt, Gcm, CodedTag, GcmTag, J0;
    TagExact(core, iv, aad, c);
    if |iv| < LENGTH_LIMIT {
      if |c| >= 16 {
        CiphertextExact(core, iv, c);
      }
      if LengthsFit(aad, c) && CountableIv(core, iv) {
        DecryptRefines(core, iv, aad, c);
      }
    }
  }

  /** A core whose product keeps its first factor. */
  function PlainCore(): Core { Core(b => b, b => b, (a: Block, b: Block) => a) }

  /** From 2^29 bytes of additional data on the tag leaves the standard. */
  lemma LongDataLeavesTheStandard(iv: seq<Byte>, aad: seq<Byte>, c: seq<Byte>)
    requires |iv| == 12 && LENGTH_LIMIT <= |aad| < WORD_RANGE && |c| < WORD_RANGE
    ensures Permutation(PlainCore()) && HashInjective(PlainCore())
    ensures CodedTag(PlainCore(), iv, aad, c) != GcmTag(PlainCore(), iv, aad, c)
  {
    hide CodedTag, GcmTag;
    TagExact(PlainCore(), iv, aad, c);
  }

  function Ones(): Block {
    [0xFF, 0xFF, 0xFF, 0xFF, 0xFF, 0xFF, 0xFF, 0xFF, 0xFF, 0xFF, 0xFF, 0xFF, 0xFF, 0xFF, 0xFF, 0xFF]
  }

  /** Multiplying by the hash sub-key is undone by that function, as in a field with a nonzero sub-key. */
  ghost predicate Undoes(core: Core, undo: Block -> Block) {
    forall b: Block :: core.mul(undo(b), core.enc(ZERO_BLOCK)) == b
  }

  /** The sixteen-byte IV with that pre-counter block. */
  function IvFor(undo: Block -> Block, j0: Block): Block { undo(Xor(undo(j0), LengthBlock(0, 16))) }

  /** Every block is the pre-counter block of some IV. */
  lemma EveryJ0Occurs(core: Core, undo: Block -> Block, j0: Block)
    requires Undoes(core, undo)
    ensures J0(core, IvFor(undo, j0)) == j0
  {
    hide Xor, GhashFrom, Pad, LengthBlock;
    var iv, h, sizes := IvFor(undo, j0), core.enc(ZERO_BLOCK), LengthBlock(0, 16);
    PadWhole(iv);
    var x := Join(iv, sizes);
    assert x[..|x| - 16] == iv && x[|x| - 16..] == sizes && iv[..0] == [] && iv[0..] == iv;
    GhashUnfold(core.mul, h, ZERO_BLOCK, x);
    GhashUnfold(core.mul, h, ZERO_BLOCK, iv);
    GhashUnfold(core.mul, h, ZERO_BLOCK, []);
    XorZero(iv);
    XorInvolution(undo(j0), sizes);
  }

  /** Under every such key there is an IV for which every message of a block or more leaves the standard:
      the increment of an all-ones pre-counter block carries into its upper 96 bits. */
  lemma CarryLeavesTheStandard(core: Core, undo: Block -> Block, p: seq<Byte>)
    requires Permutation(core) && Undoes(core, undo) && |p| >= 16
    ensures CodedCrypt(core, IvFor(undo, Ones()), p) != Gcm(core, IvFor(undo, Ones()), p)
  {
    hide CodedCrypt, Gcm, J0, IvFor;
    EveryJ0Occurs(core, undo, Ones());
    CiphertextExact(core, IvFor(undo, Ones()), p);
  }

  /** Decrypting what encryption made returns the plaintext and asks for the tag encryption made, for
      every IV, AAD, message and tag size, also where the driver and the standard part. */
  lemma CodedRoundTrip(core: Core, iv: seq<Byte>, aad: seq<Byte>, p: seq<Byte>, tagSize: nat)
    ensures CodedCrypt(core, iv, CodedCrypt(core, iv, p)) == p
    ensures TagBytes(core, false, iv, aad, CodedCrypt(core, iv, p), tagSize)
         == TagBytes(core, true, iv, aad, p, tagSize)
  {
    hide CodedStart, AddLow, CodedTag;
    var start := CodedStart(core, iv);
    StreamRoundTrip(j => core.enc(AddLow(start, j)), p);
  }

  /** The two calls one after the other, on the same engine and through separate buffers. */
  method EncryptThenDecrypt(e: Engine, plaintext: array<Byte>, size: nat, iv: array<Byte>, ivSize: nat,
                            aad: array<Byte>, aadSize: nat, tagSize: nat)
    returns (encrypted: Status, decrypted: Status, result: array<Byte>)
    requires size <= plaintext.Length && ivSize <= iv.Length && aadSize <= aad.Length
    requires ValidArguments(plaintext, iv, aad, plaintext, size, ivSize, aadSize, tagSize) && e.regs.keyValid
    modifies e
    ensures encrypted == Success && decrypted == Success
    ensures result.Length == size && result[..] == plaintext[..size]
  {
    hide CodedCrypt, TagBytes, ValidArguments;
    var ciphertext := new Byte[size](i => 0);
    var tag := new Byte[16](i => 0);
    result := new Byte[size](i => 0);
    BuffersExchanged(plaintext, iv, aad, plaintext, ciphertext, result, size, ivSize, aadSize, tagSize);
    encrypted := GcmProcess(e, true, plaintext, size, iv, ivSize, aad, aadSize, ciphertext, tag, tagSize);
    ghost var nonce, extra, text := iv[..ivSize], aad[..aadSize], plaintext[..size];
    assert ciphertext[..] == CodedCrypt(e.core, nonce, text) == ciphertext[..size];
    CodedRoundTrip(e.core, nonce, extra, text, tagSize);
    TagLength(e.core, nonce, extra, text, tagSize);
    assert tag[..tagSize] == TagBytes(e.core, false, nonce, extra, ciphertext[..size], tagSize);
    var overrun;
    decrypted, overrun := DecryptTagGcm(e, ciphertext, result, size, iv, ivSize, aad, aadSize, tag, tagSize);
  }

  lemma TagLength(core: Core, iv: seq<Byte>, aad: seq<Byte>, p: seq<Byte>, tagSize: nat)
    requires tagSize <= 16
    ensures |TagBytes(core, true, iv, aad, p, tagSize)| == tagSize
  {
  }

  lemma BuffersExchanged(src: array<Byte>, iv: array<Byte>, aad: array<Byte>, dst: array<Byte>,
                         other: array<Byte>, last: array<Byte>, inputSize: nat, ivSize: nat, aadSize: nat, tagSize: nat)
    requires ValidArguments(src, iv, aad, dst, inputSize, ivSize, aadSize, tagSize)
    ensures ValidArguments(src, iv, aad, other, inputSize, ivSize, aadSize, tagSize)
    ensures ValidArguments(other, iv, aad, last, inputSize, ivSize, aadSize, tagSize)
    ensures tagSize <= 16
  {
  }
}
