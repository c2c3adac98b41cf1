/** GHASH and GCM of NIST SP 800-38D, over byte strings, for any core. */
module NistGcm {
  import opened Bytes
  import opened AesEngine
  import opened NistModes

  /** Section 6.4, started from the block z instead of zero. */
  function GhashFrom(mul: (Block, Block) -> Block, h: Block, z: Block, x: seq<Byte>): Block
    requires |x| % 16 == 0
  {
    if x == [] then z else var n := |x| - 16; mul(Xor(GhashFrom(mul, h, z, x[..n]), x[n..]), h)
  }

  lemma GhashUnfold(mul: (Block, Block) -> Block, h: Block, z: Block, x: seq<Byte>)
    requires |x| % 16 == 0
    ensures if x == [] then GhashFrom(mul, h, z, x) == z else
      var n := |x| - 16; GhashFrom(mul, h, z, x) == mul(Xor(GhashFrom(mul, h, z, x[..n]), x[n..]), h)
  {
  }

  lemma {:induction false} GhashSplit(mul: (Block, Block) -> Block, h: Block, z: Block, a: seq<Byte>, b: seq<Byte>)
    requires |a| % 16 == 0 && |b| % 16 == 0
    ensures GhashFrom(mul, h, z, Join(a, b)) == GhashFrom(mul, h, GhashFrom(mul, h, z, a), b)
  {
    hide Xor, GhashFrom;
    GhashUnfold(mul, h, GhashFrom(mul, h, z, a), b);
    if b == [] {
      assert Join(a, b) == a;
    } else {
      var n, x := |b| - 16, Join(a, b);
      GhashSplit(mul, h, z, a, b[..n]);
      GhashUnfold(mul, h, z, x);
      assert x[..|x| - 16] == Join(a, b[..n]) && x[|x| - 16..] == b[n..];
    }
  }

  /** Section 6.4 for the hash sub-key of the loaded key. */
  function Ghash(core: Core, x: seq<Byte>): Block
    requires |x| % 16 == 0
  {
    GhashFrom(core.mul, core.enc(ZERO_BLOCK), ZERO_BLOCK, x)
  }

  /** Section 7.1, step 2: the pre-counter block. */
  function J0(core: Core, iv: seq<Byte>): Block {
    if |iv| == 12 then iv + [0, 0, 0, 1]
    else Ghash(core, Join(Pad(iv), LengthBlock(0, |iv|)))
  }

  /** Section 7.1, steps 4 and 5: the padding and the two bit lengths. */
  function Hashed(aad: seq<Byte>, c: seq<Byte>): (x: seq<Byte>)
    ensures |x| % 16 == 0
  {
    Join(Join(Pad(aad), Pad(c)), LengthBlock(|aad|, |c|))
  }

  function LengthBlock(aadSize: nat, size: nat): Block {
    ToBytes(8, 8 * aadSize) + ToBytes(8, 8 * size)
  }

  /** Section 7.1, step 3; section 7.2, step 4 is the same function. */
  function Gcm(core: Core, iv: seq<Byte>, text: seq<Byte>): (r: seq<Byte>)
    ensures |r| == |text|
  {
    Ctr(core.enc, AddLow(J0(core, iv), 1), text)
  }

  /** Section 7.1, step 6 before truncation. */
  function GcmTag(core: Core, iv: seq<Byte>, aad: seq<Byte>, c: seq<Byte>): Block {
    Xor(Ghash(core, Hashed(aad, c)), core.enc(J0(core, iv)))
  }
}
