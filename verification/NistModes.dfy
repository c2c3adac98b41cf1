/** The modes of operation of NIST SP 800-38A, over byte strings, for any block cipher. */
module NistModes {
  import opened Bytes

  type Cipher = Block -> Block

  /** The block before the first byte of the next one: the last block so far, or the IV. */
  function Previous(iv: Block, s: seq<Byte>): Block
    requires |s| % 16 == 0
  {
    if s == [] then iv else s[|s| - 16..]
  }

  /** Section 6.1: every block on its own. */
  function Ecb(f: Cipher, s: seq<Byte>): (r: seq<Byte>)
    requires |s| % 16 == 0
    ensures |r| == |s|
  {
    if s == [] then [] else var n := |s| - 16; Ecb(f, s[..n]) + f(s[n..])
  }

  /** Section 6.2: C[j] = E(P[j] + C[j-1]), with C[0] the IV. */
  function CbcEncrypt(e: Cipher, iv: Block, p: seq<Byte>): (c: seq<Byte>)
    requires |p| % 16 == 0
    ensures |c| == |p|
  {
    if p == [] then [] else
      var n := |p| - 16;
      var c := CbcEncrypt(e, iv, p[..n]);
      c + e(Xor(p[n..], Previous(iv, c)))
  }

  /** Section 6.2: P[j] = D(C[j]) + C[j-1]. */
  function CbcDecrypt(d: Cipher, iv: Block, c: seq<Byte>): (p: seq<Byte>)
    requires |c| % 16 == 0
    ensures |p| == |c|
  {
    if c == [] then [] else
      var n := |c| - 16;
      CbcDecrypt(d, iv, c[..n]) + Xor(d(c[n..]), Previous(iv, c[..n]))
  }

  /** Section 6.3 with whole-block segments: C[j] = P[j] + E(C[j-1]). */
  function CfbEncrypt(e: Cipher, iv: Block, p: seq<Byte>): (c: seq<Byte>)
    requires |p| % 16 == 0
    ensures |c| == |p|
  {
    if p == [] then [] else
      var n := |p| - 16;
      var c := CfbEncrypt(e, iv, p[..n]);
      c + Xor(e(Previous(iv, c)), p[n..])
  }

  /** Section 6.3: P[j] = C[j] + E(C[j-1]). */
  function CfbDecrypt(e: Cipher, iv: Block, c: seq<Byte>): (p: seq<Byte>)
    requires |c| % 16 == 0
    ensures |p| == |c|
  {
    if c == [] then [] else
      var n := |c| - 16;
      CfbDecrypt(e, iv, c[..n]) + Xor(e(Previous(iv, c[..n])), c[n..])
  }

  /** Section 6.4: the output blocks, O[0] = E(IV) and O[j] = E(O[j-1]). */
  function OfbBlock(e: Cipher, iv: Block, j: nat): Block {
    if j == 0 then e(iv) else e(OfbBlock(e, iv, j - 1))
  }

  /** A stream mode: every byte meets its byte of the output blocks, the last block cut short. */
  function Stream(key: nat -> Block, s: seq<Byte>): (r: seq<Byte>)
    ensures |r| == |s|
  {
    seq(|s|, i requires 0 <= i < |s| => s[i] ^ key(i / 16)[i % 16])
  }

  /** Section 6.4. */
  function Ofb(e: Cipher, iv: Block, s: seq<Byte>): (r: seq<Byte>)
    ensures |r| == |s|
  {
    Stream(j => OfbBlock(e, iv, j), s)
  }

  /** Section 6.5, with the counter blocks that inc32 makes from the initial one. */
  function Ctr(e: Cipher, icb: Block, s: seq<Byte>): (r: seq<Byte>)
    ensures |r| == |s|
  {
    Stream(j => e(AddLow(icb, j)), s)
  }

  /** A stream of whole blocks followed by at most one more block, itself possibly short. */
  lemma StreamSplit(key: nat -> Block, a: seq<Byte>, b: seq<Byte>)
    requires |a| % 16 == 0 && |b| <= 16
    ensures Stream(key, a + b) == Stream(key, a) + Xor(b, key(|a| / 16)[..|b|])
  {
    var whole := Stream(key, a + b);
    var k := key(|a| / 16);
    forall i | 0 <= i < |a| ensures whole[i] == Stream(key, a)[i] {
    }
    forall i | 0 <= i < |b| ensures whole[|a| + i] == Xor(b, k[..|b|])[i] {
      BlockIndex(|a|, i);
      assert (a + b)[|a| + i] == b[i];
    }
  }

  /** The bytes of a short last block are the first bytes of that block processed whole. */
  lemma StreamShort(key: nat -> Block, text: seq<Byte>, x: Block)
    requires var n := |text| % 16; x[..n] == text[|text| - n..]
    ensures var n := |text| % 16; var whole := |text| - n;
      Stream(key, text) == Stream(key, text[..whole]) + Xor(x, key(whole / 16))[..n]
  {
    hide Stream, Xor;
    var n := |text| % 16;
    var whole := |text| - n;
    StreamSplit(key, text[..whole], text[whole..]);
    assert text == text[..whole] + text[whole..];
    XorPrefix(x, key(whole / 16), n);
  }

  lemma XorPrefix(a: seq<Byte>, b: seq<Byte>, n: nat)
    requires |a| == |b| && n <= |a|
    ensures Xor(a[..n], b[..n]) == Xor(a, b)[..n]
  {
    forall i | 0 <= i < n ensures Xor(a[..n], b[..n])[i] == Xor(a, b)[..n][i] {
      assert a[..n][i] == a[i] && b[..n][i] == b[i];
    }
  }

  // ---- Each decryption undoes its encryption ----

  ghost predicate Inverse(e: Cipher, d: Cipher) {
    forall b: Block :: d(e(b)) == b
  }

  lemma {:induction false} EcbRoundTrip(e: Cipher, d: Cipher, p: seq<Byte>)
    requires |p| % 16 == 0 && Inverse(e, d)
    ensures Ecb(d, Ecb(e, p)) == p
  {
    hide Ecb;
    if p == [] {
      EcbNone(e);
      EcbNone(d);
    } else {
      var n := |p| - 16;
      EcbRoundTrip(e, d, p[..n]);
      assert p == p[..n] + p[n..];
      EcbNext(e, p[..n], p[n..]);
      EcbNext(d, Ecb(e, p[..n]), e(p[n..]));
    }
  }

  lemma EcbNone(e: Cipher)
    ensures Ecb(e, []) == []
  {
  }

  lemma EcbNext(e: Cipher, done: seq<Byte>, x: Block)
    requires |done| % 16 == 0
    ensures Ecb(e, done + x) == Ecb(e, done) + e(x)
  {
    assert (done + x)[..|done|] == done && (done + x)[|done|..] == x;
  }

  lemma {:induction false} CbcRoundTrip(e: Cipher, d: Cipher, iv: Block, p: seq<Byte>)
    requires |p| % 16 == 0 && Inverse(e, d)
    ensures CbcDecrypt(d, iv, CbcEncrypt(e, iv, p)) == p
  {
    hide CbcEncrypt, CbcDecrypt, Xor, Previous;
    if p == [] {
      CbcNone(e, d, iv);
    } else {
      var done, x := p[..|p| - 16], p[|p| - 16..];
      CbcRoundTrip(e, d, iv, done);
      assert p == done + x;
      var before := CbcEncrypt(e, iv, done);
      CbcEncryptNext(e, iv, done, x);
      CbcDecryptNext(d, iv, before, e(Xor(x, Previous(iv, before))));
      XorInvolution(x, Previous(iv, before));
    }
  }

  lemma CbcNone(e: Cipher, d: Cipher, iv: Block)
    ensures CbcEncrypt(e, iv, []) == [] && CbcDecrypt(d, iv, []) == []
  {
  }

  lemma CbcEncryptNext(e: Cipher, iv: Block, done: seq<Byte>, x: Block)
    requires |done| % 16 == 0
    ensures var c := CbcEncrypt(e, iv, done); CbcEncrypt(e, iv, done + x) == c + e(Xor(x, Previous(iv, c)))
  {
    hide Xor, Previous;
    assert (done + x)[..|done|] == done && (done + x)[|done|..] == x;
  }

  lemma CbcDecryptNext(d: Cipher, iv: Block, done: seq<Byte>, x: Block)
    requires |done| % 16 == 0
    ensures CbcDecrypt(d, iv, done + x) == CbcDecrypt(d, iv, done) + Xor(d(x), Previous(iv, done))
  {
    hide Xor, Previous;
    assert (done + x)[..|done|] == done && (done + x)[|done|..] == x;
  }

  lemma {:induction false} CfbRoundTrip(e: Cipher, iv: Block, p: seq<Byte>)
    requires |p| % 16 == 0
    ensures CfbDecrypt(e, iv, CfbEncrypt(e, iv, p)) == p
  {
    hide CfbEncrypt, CfbDecrypt, Xor, Previous;
    if p == [] {
      CfbNone(e, iv);
    } else {
      var done, x := p[..|p| - 16], p[|p| - 16..];
      CfbRoundTrip(e, iv, done);
      assert p == done + x;
      var before := CfbEncrypt(e, iv, done);
      CfbEncryptNext(e, iv, done, x);
      CfbDecryptNext(e, iv, before, Xor(e(Previous(iv, before)), x));
      XorCancels(e(Previous(iv, before)), x);
    }
  }

  lemma CfbNone(e: Cipher, iv: Block)
    ensures CfbEncrypt(e, iv, []) == [] && CfbDecrypt(e, iv, []) == []
  {
  }

  lemma CfbEncryptNext(e: Cipher, iv: Block, done: seq<Byte>, x: Block)
    requires |done| % 16 == 0
    ensures var c := CfbEncrypt(e, iv, done); CfbEncrypt(e, iv, done + x) == c + Xor(e(Previous(iv, c)), x)
  {
    hide Xor, Previous;
    assert (done + x)[..|done|] == done && (done + x)[|done|..] == x;
  }

  lemma CfbDecryptNext(e: Cipher, iv: Block, done: seq<Byte>, x: Block)
    requires |done| % 16 == 0
    ensures CfbDecrypt(e, iv, done + x) == CfbDecrypt(e, iv, done) + Xor(e(Previous(iv, done)), x)
  {
    hide Xor, Previous;
    assert (done + x)[..|done|] == done && (done + x)[|done|..] == x;
  }

  /** A stream mode is its own inverse, at every length: OFB and CTR decrypt by encrypting. */
  lemma StreamRoundTrip(key: nat -> Block, s: seq<Byte>)
    ensures Stream(key, Stream(key, s)) == s
  {
    forall i | 0 <= i < |s| ensures Stream(key, Stream(key, s))[i] == s[i] {
      var k := key(i / 16)[i % 16];
      assert (s[i] ^ k) ^ k == s[i];
    }
  }
}
