/** Bytes, 16-byte blocks, 32-bit machine words and big-endian numbers, shared by the drivers. */
module Bytes {

  type Byte = bv8

  type Block = s: seq<Byte> | |s| == 16 witness ZERO_BLOCK

  const ZERO_BLOCK: seq<Byte> := Zeros(16)

  function Zeros(n: nat): (s: seq<Byte>)
    ensures |s| == n && forall i | 0 <= i < n :: s[i] == 0
  {
    seq(n, i => 0)
  }

  const WORD_RANGE: nat := 0x1_0000_0000

  /** Byte-wise exclusive or of two equally long strings. */
  function Xor(a: seq<Byte>, b: seq<Byte>): (r: seq<Byte>)
    requires |a| == |b|
    ensures |r| == |a|
  {
    seq(|a|, i requires 0 <= i < |a| => a[i] ^ b[i])
  }

  lemma XorInvolution(a: seq<Byte>, b: seq<Byte>)
    requires |a| == |b|
    ensures Xor(Xor(a, b), b) == a
  {
    forall i | 0 <= i < |a| ensures Xor(Xor(a, b), b)[i] == a[i] {
      assert (a[i] ^ b[i]) ^ b[i] == a[i];
    }
  }

  lemma XorCancels(a: seq<Byte>, b: seq<Byte>)
    requires |a| == |b|
    ensures Xor(a, Xor(a, b)) == b
  {
    forall i | 0 <= i < |a| ensures Xor(a, Xor(a, b))[i] == b[i] {
      assert a[i] ^ (a[i] ^ b[i]) == b[i];
    }
  }

  lemma XorCommutes(a: seq<Byte>, b: seq<Byte>)
    requires |a| == |b|
    ensures Xor(a, b) == Xor(b, a)
  {
    assert forall i | 0 <= i < |a| :: a[i] ^ b[i] == b[i] ^ a[i];
  }

  lemma XorZero(a: Block)
    ensures Xor(a, ZERO_BLOCK) == a && Xor(ZERO_BLOCK, a) == a
  {
    assert forall i | 0 <= i < 16 :: a[i] ^ 0 == a[i] && 0 ^ a[i] == a[i];
  }

  /** The string followed by the fewest zero bytes that make its length a multiple of 16. */
  function Pad(s: seq<Byte>): (r: seq<Byte>)
    ensures |r| % 16 == 0 && |s| <= |r| < |s| + 16
    ensures s <= r && forall i | |s| <= i < |r| :: r[i] == 0
  {
    s + Zeros((16 - |s| % 16) % 16)
  }

  /** A short block, filled up. */
  function PadShort(s: seq<Byte>): (r: Block)
    requires 0 < |s| <= 16
  {
    Pad(s)
  }

  /** The string s with b written over it from offset at. */
  function Splice(s: seq<Byte>, at: nat, b: seq<Byte>): (r: seq<Byte>)
    requires at + |b| <= |s|
    ensures |r| == |s|
  {
    s[..at] + b + s[at + |b|..]
  }

  lemma SpliceEnds(s: seq<Byte>, at: nat, b: Block)
    requires at + 16 <= |s|
    ensures Splice(s, at, b[..0]) == s && Splice(s, at, b[..16]) == Splice(s, at, b)
    ensures |s| == 16 ==> Splice(s, 0, b) == b
  {
    assert b[..16] == b;
  }

  lemma SliceOfSlice(s: seq<Byte>, at: nat, k: nat)
    requires k < 4 && at + 16 <= |s|
    ensures s[at..at + 16][4 * k..4 * k + 4] == s[at + 4 * k..at + 4 * k + 4]
  {
  }

  /** Writing the k-th of four words after the ones before it. */
  lemma SpliceWord(s: seq<Byte>, at: nat, b: Block, k: nat)
    requires k < 4 && at + 16 <= |s|
    ensures Splice(Splice(s, at, b[..4 * k]), at + 4 * k, b[4 * k..4 * k + 4]) == Splice(s, at, b[..4 * k + 4])
  {
  }

  /** Writing just behind what is done. */
  lemma SpliceNext(done: seq<Byte>, before: seq<Byte>, b: seq<Byte>)
    requires |done| + |b| <= |before|
    ensures Splice(done + before[|done|..], |done|, b) == (done + b) + before[|done| + |b|..]
    ensures Splice(done + before[|done|..], |done|, b)[|done| + |b|..] == before[|done| + |b|..]
  {
  }

  /** Byte i past a whole number n / 16 of blocks. */
  lemma BlockIndex(n: nat, i: nat)
    requires n % 16 == 0 && i < 16
    ensures (n + i) / 16 == n / 16 && (n + i) % 16 == i
  {
  }

  /** Two strings of whole blocks, one after the other. */
  function Join(a: seq<Byte>, b: seq<Byte>): (r: seq<Byte>)
    requires |a| % 16 == 0 && |b| % 16 == 0
    ensures |r| % 16 == 0
  {
    a + b
  }

  // ---- 32-bit words: little-endian loads and stores, and the byte swap of the driver ----

  function LoadWord(b: seq<Byte>): bv32
    requires |b| == 4
  {
    (b[0] as bv32) | ((b[1] as bv32) << 8) | ((b[2] as bv32) << 16) | ((b[3] as bv32) << 24)
  }

  function StoreWord(w: bv32): (b: seq<Byte>)
    ensures |b| == 4
  {
    [(w & 0xFF) as bv8, ((w >> 8) & 0xFF) as bv8, ((w >> 16) & 0xFF) as bv8, ((w >> 24) & 0xFF) as bv8]
  }

  function SwapBytes(w: bv32): bv32 {
    ((w & 0x000000FF) << 24) | ((w & 0x0000FF00) << 8) | ((w & 0x00FF0000) >> 8) | ((w & 0xFF000000) >> 24)
  }

  /** The four bytes of a word, most significant first: the order inside the AES engine. */
  function BigEndian(w: bv32): (b: seq<Byte>)
    ensures |b| == 4
  {
    [((w >> 24) & 0xFF) as bv8, ((w >> 16) & 0xFF) as bv8, ((w >> 8) & 0xFF) as bv8, (w & 0xFF) as bv8]
  }

  lemma StoreLoad(b: seq<Byte>)
    requires |b| == 4
    ensures StoreWord(LoadWord(b)) == b
  {
    var b0, b1, b2, b3 := b[0], b[1], b[2], b[3];
    assert b == [b0, b1, b2, b3];
  }

  /** Loading little-endian and swapping leaves the memory order, most significant first. */
  lemma SwappedLoad(b: seq<Byte>)
    requires |b| == 4
    ensures BigEndian(SwapBytes(LoadWord(b))) == b
  {
    var b0, b1, b2, b3 := b[0], b[1], b[2], b[3];
    assert b == [b0, b1, b2, b3];
  }

  lemma SwapSelfInverse(w: bv32)
    ensures SwapBytes(SwapBytes(w)) == w
    ensures StoreWord(SwapBytes(w)) == BigEndian(w)
  {
  }

  /** Stores a word at a byte offset. */
  method StoreUnaligned(dst: array<Byte>, at: nat, w: bv32)
    requires at + 4 <= dst.Length
    modifies dst
    ensures dst[..] == Splice(old(dst[..]), at, StoreWord(w))
  {
    var b := StoreWord(w);
    dst[at], dst[at + 1], dst[at + 2], dst[at + 3] := b[0], b[1], b[2], b[3];
  }

  // ---- Big-endian numbers ----

  function Value(s: seq<Byte>): (v: nat)
    ensures v < Range(|s|)
  {
    if s == [] then 0 else
      var n := |s| - 1;
      assert Value(s[..n]) * 256 + 255 < Range(n) * 256;
      Value(s[..n]) * 256 + s[n] as int
  }

  /** The number of values of an n-byte number. */
  function Range(n: nat): (r: nat)
    ensures r > 0
  {
    if n == 0 then 1 else Range(n - 1) * 256
  }

  lemma RangeOfWord()
    ensures Range(4) == WORD_RANGE
  {
    assert Range(1) == 256 && Range(2) == 0x1_0000 && Range(3) == 0x100_0000;
  }

  function ByteOf(v: nat): (b: Byte)
    requires v < 256
    ensures b as int == v
  {
    if v == 0 then 0 else var p := ByteOf(v - 1); assert p != 0xFF; p + 1
  }

  lemma ByteOfInt(b: Byte)
    ensures ByteOf(b as int) == b
  {
    var c := ByteOf(b as int);
    assert (b as int) as bv8 == b && (c as int) as bv8 == c;
  }

  /** The n-byte big-endian representation of v modulo 256^n. */
  function ToBytes(n: nat, v: nat): (s: seq<Byte>)
    ensures |s| == n
  {
    if n == 0 then [] else ToBytes(n - 1, v / 256) + [ByteOf(v % 256)]
  }

  lemma {:induction false} ToBytesValue(s: seq<Byte>)
    ensures ToBytes(|s|, Value(s)) == s
  {
    if s != [] {
      var n := |s| - 1;
      ToBytesValue(s[..n]);
      var last: int := s[n] as int;
      assert Value(s) == Value(s[..n]) * 256 + last;
      assert Value(s) / 256 == Value(s[..n]) && Value(s) % 256 == last;
      ByteOfInt(s[n]);
      assert s == s[..n] + [s[n]];
    }
  }

  lemma {:induction false} ValueToBytes(n: nat, v: nat)
    requires v < Range(n)
    ensures Value(ToBytes(n, v)) == v
  {
    if n > 0 {
      ValueToBytes(n - 1, v / 256);
      var s := ToBytes(n, v);
      assert s[..n - 1] == ToBytes(n - 1, v / 256);
    }
  }

  lemma {:induction false} ZeroBytes(n: nat)
    ensures ToBytes(n, 0) == Zeros(n)
  {
    if n > 0 {
      ZeroBytes(n - 1);
    }
  }

  lemma ValueInjective(a: seq<Byte>, b: seq<Byte>)
    requires |a| == |b| && Value(a) == Value(b)
    ensures a == b
  {
    ToBytesValue(a);
    ToBytesValue(b);
  }

  /** A word value given as a number: its big-endian bytes are the number's digits. */
  function WordOfNat(v: nat): bv32 {
    SwapBytes(LoadWord(ToBytes(4, v)))
  }

  lemma WordOfNatBytes(v: nat)
    ensures StoreWord(SwapBytes(WordOfNat(v))) == ToBytes(4, v)
  {
    var b := ToBytes(4, v);
    SwapSelfInverse(LoadWord(b));
    StoreLoad(b);
  }

  // ---- Counter blocks ----

  /** Adds n to the low 32 bits of a counter block, leaving the upper 96 bits alone: for n = 1 this
      is inc32 of section 6.2 of NIST SP 800-38D. */
  function AddLow(b: Block, n: nat): Block {
    b[..12] + ToBytes(4, (Value(b[12..]) + n) % WORD_RANGE)
  }

  lemma LowValue(b: Block, n: nat)
    ensures AddLow(b, n)[..12] == b[..12]
    ensures Value(AddLow(b, n)[12..]) == (Value(b[12..]) + n) % WORD_RANGE
  {
    RangeOfWord();
    hide Value, ToBytes, Range;
    ValueToBytes(4, (Value(b[12..]) + n) % WORD_RANGE);
    assert AddLow(b, n)[12..] == ToBytes(4, (Value(b[12..]) + n) % WORD_RANGE);
  }

  lemma AddLowZero(b: Block)
    ensures AddLow(b, 0) == b
  {
    RangeOfWord();
    hide Value, ToBytes, Range;
    var low := b[12..];
    assert (Value(low) + 0) % WORD_RANGE == Value(low);
    ToBytesValue(low);
    assert b == b[..12] + low;
  }

  lemma AddLowTwice(b: Block, m: nat, n: nat)
    ensures AddLow(AddLow(b, m), n) == AddLow(b, m + n)
  {
    hide Value, ToBytes;
    LowValue(b, m);
    ModAdd(Value(b[12..]) + m, n);
  }

  lemma ModAdd(a: nat, n: nat)
    ensures (a % WORD_RANGE + n) % WORD_RANGE == (a + n) % WORD_RANGE
  {
  }
}
