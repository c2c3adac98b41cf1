/** CTR over a message handed in piece by piece, as the driver's comments tell callers to chain calls
    (drivers/aes/fsl_aes.c:661-773). */
module AesCtrStream {
  import opened Bytes
  import opened AesEngine
  import opened AesCtr
  import opened NistModes

  /** What a caller keeps between pieces: the counter array, counterlast and szLeft. */
  datatype Carried = Carried(counter: Block, last: Block, left: nat)

  type Pieces = seq<seq<Byte>>

  function Min(a: nat, b: nat): nat { if a < b then a else b }

  /** The bytes of a piece served from counterlast. */
  function Bridged(s: Carried, piece: seq<Byte>): (b: nat)
    requires s.left <= 16
    ensures b <= |piece| && b <= s.left
  {
    Min(s.left, |piece|)
  }

  /** A piece: the unused bytes of counterlast first, then a call for what is left, if anything. */
  function Fed(e: Cipher, s: Carried, piece: seq<Byte>): (out: seq<Byte>)
    requires s.left <= 16
    ensures |out| == |piece|
  {
    var b := Bridged(s, piece);
    Xor(piece[..b], s.last[16 - s.left..][..b]) + Ctr(e, s.counter, piece[b..])
  }

  /** What a call leaves behind. */
  function Called(e: Cipher, counter: Block, size: nat): (s: Carried)
    ensures s.left <= 16
  {
    var used := BlocksUsed(size);
    Carried(NextCounter(counter, used), e(AddLow(counter, used - 1)), 16 * used - size)
  }

  function Next(e: Cipher, s: Carried, piece: seq<Byte>): (s': Carried)
    requires s.left <= 16
    ensures s'.left <= 16
  {
    var b := Bridged(s, piece);
    if b == |piece| then s.(left := s.left - b) else Called(e, s.counter, |piece| - b)
  }

  function FedAll(e: Cipher, s: Carried, pieces: Pieces): seq<Byte>
    requires s.left <= 16
    decreases |pieces|
  {
    if pieces == [] then [] else Fed(e, s, pieces[0]) + FedAll(e, Next(e, s, pieces[0]), pieces[1..])
  }

  function Concat(pieces: Pieces): seq<Byte> {
    if pieces == [] then [] else pieces[0] + Concat(pieces[1..])
  }

  /** What is carried is right for a message of which done bytes have been processed. */
  ghost predicate InSync(e: Cipher, icb: Block, done: nat, s: Carried) {
    Fits(e, icb, done, Blocks(done), s) && s.counter == AddLow(icb, Blocks(done))
  }

  /** The call for a piece would return a counter whose low word is all ones. */
  ghost predicate Spoils(icb: Block, done: nat, piece: seq<Byte>) {
    Blocks(done + |piece|) > Blocks(done) && AllOnes(AddLow(icb, Blocks(done + |piece|))[12..])
  }

  /** Bytes of the last key block still unused. */
  function Unused(done: nat): (n: nat)
    ensures n < 16
  {
    16 * Blocks(done) - done
  }

  /** No call spoils a counter that is used again: after the first one that spoils it, what is left of
      the message is served from counterlast. */
  ghost predicate Unspoilt(icb: Block, done: nat, pieces: Pieces)
    decreases |pieces|
  {
    pieces == [] ||
    var now := done + |pieces[0]|;
    if Spoils(icb, done, pieces[0]) then |Concat(pieces[1..])| <= Unused(now)
    else Unspoilt(icb, now, pieces[1..])
  }

  // ---- Byte by byte ----

  function Mixed(a: Byte, b: Byte): Byte { a ^ b }

  /** The key byte that byte i of a piece meets. */
  function Key(e: Cipher, s: Carried, i: nat): Byte
    requires s.left <= 16
  {
    if i < s.left then s.last[16 - s.left + i]
    else e(AddLow(s.counter, (i - s.left) / 16))[(i - s.left) % 16]
  }

  /** The key byte that byte i of a message should meet. */
  function RightKey(e: Cipher, icb: Block, i: nat): Byte { e(AddLow(icb, i / 16))[i % 16] }

  lemma FedByte(e: Cipher, s: Carried, piece: seq<Byte>, i: nat)
    requires s.left <= 16 && i < |piece|
    ensures Fed(e, s, piece)[i] == Mixed(piece[i], Key(e, s, i))
  {
    hide AddLow, Ctr, Xor;
    var b := Bridged(s, piece);
    if i < b {
      XorAt(piece[..b], s.last[16 - s.left..][..b], i);
    } else {
      assert b == s.left && piece[b..][i - b] == piece[i];
      CtrAt(e, s.counter, piece[b..], i - b);
    }
  }

  lemma MessageByte(e: Cipher, icb: Block, m: seq<Byte>, i: nat)
    requires i < |m|
    ensures Ctr(e, icb, m)[i] == Mixed(m[i], RightKey(e, icb, i))
  {
    hide Ctr, AddLow;
    CtrAt(e, icb, m, i);
  }

  /** What is carried fits a message at byte done, the next counter being that of the block. */
  ghost predicate Fits(e: Cipher, icb: Block, done: nat, block: nat, s: Carried) {
    && 16 * block == done + s.left && s.left <= 16
    && (s.left > 0 ==> s.last == e(AddLow(icb, block - 1)))
  }

  /** Carried key bytes are right, those of the last key block even if the counter is not. */
  lemma CarriedKey(e: Cipher, icb: Block, done: nat, block: nat, s: Carried, i: nat)
    requires Fits(e, icb, done, block, s) && (i >= s.left ==> s.counter == AddLow(icb, block))
    ensures Key(e, s, i) == RightKey(e, icb, done + i)
  {
    hide AddLow;
    if i < s.left {
      BlockIndex(16 * (block - 1), 16 - s.left + i);
    } else {
      var k := (i - s.left) / 16;
      AddLowTwice(icb, block, k);
      BlockIndex(16 * (block + k), (i - s.left) % 16);
    }
  }

  /** A piece is processed right when the key block carried is, and the counter if it is needed. */
  lemma PieceCorrect(e: Cipher, icb: Block, m: seq<Byte>, done: nat, block: nat, s: Carried, piece: seq<Byte>)
    requires Fits(e, icb, done, block, s) && (|piece| > s.left ==> s.counter == AddLow(icb, block))
    requires done + |piece| <= |m| && m[done..done + |piece|] == piece
    ensures Fed(e, s, piece) == Ctr(e, icb, m)[done..done + |piece|]
  {
    hide Fed, Ctr, AddLow, Mixed, Key, RightKey;
    var out, wanted := Fed(e, s, piece), Ctr(e, icb, m)[done..done + |piece|];
    forall i | 0 <= i < |piece| ensures out[i] == wanted[i] {
      FedByte(e, s, piece, i);
      CarriedKey(e, icb, done, block, s, i);
      MessageByte(e, icb, m, done + i);
    }
  }

  // ---- What is carried from call to call ----

  lemma BlocksAdd(done: nat, size: nat)
    requires size > Unused(done)
    ensures var rest := size - Unused(done);
      && Blocks(done + size) == Blocks(done) + BlocksUsed(rest)
      && 16 * BlocksUsed(rest) - rest == Unused(done + size)
  {
  }

  /** The counter and the key block that a call for a piece leaves. */
  lemma AfterCall(e: Cipher, icb: Block, done: nat, s: Carried, piece: seq<Byte>)
    requires InSync(e, icb, done, s) && |piece| > s.left
    ensures var now, s' := done + |piece|, Next(e, s, piece);
      && Blocks(now) > Blocks(done) && s'.left == Unused(now)
      && s'.last == e(AddLow(icb, Blocks(now) - 1))
      && (s'.counter == AddLow(icb, Blocks(now)) <==> !AllOnes(AddLow(icb, Blocks(now))[12..]))
  {
    hide AddLow, NextCounter, AllOnes, Blocks, BlocksUsed, Called;
    BlocksAdd(done, |piece|);
    CallState(e, icb, Blocks(done), s.counter, |piece| - s.left);
  }

  lemma CallState(e: Cipher, icb: Block, block: nat, counter: Block, size: nat)
    requires counter == AddLow(icb, block)
    ensures var s, next := Called(e, counter, size), block + BlocksUsed(size);
      && s.last == e(AddLow(icb, next - 1)) && s.left == 16 * BlocksUsed(size) - size
      && (s.counter == AddLow(icb, next) <==> !AllOnes(AddLow(icb, next)[12..]))
  {
    hide AddLow, NextCounter, AllOnes, BlocksUsed;
    var used := BlocksUsed(size);
    AddLowTwice(icb, block, used);
    AddLowTwice(icb, block, used - 1);
    NextCounterExact(counter, used);
  }

  lemma SameBlock(done: nat, size: nat)
    requires size <= Unused(done)
    ensures Blocks(done + size) == Blocks(done) && Unused(done + size) == Unused(done) - size
  {
  }

  /** What is carried stays right exactly while no call spoils the counter, the key block always. */
  lemma CarriedExact(e: Cipher, icb: Block, done: nat, s: Carried, piece: seq<Byte>)
    requires InSync(e, icb, done, s)
    ensures InSync(e, icb, done + |piece|, Next(e, s, piece)) <==> !Spoils(icb, done, piece)
    ensures Fits(e, icb, done + |piece|, Blocks(done + |piece|), Next(e, s, piece))
    ensures Spoils(icb, done, piece) ==> Next(e, s, piece).counter != AddLow(icb, Blocks(done + |piece|))
  {
    hide AddLow, NextCounter, AllOnes, Blocks;
    if |piece| > s.left {
      AfterCall(e, icb, done, s, piece);
    } else {
      SameBlock(done, |piece|);
    }
  }

  /** However what comes next is cut, its first bytes meet the rest of the last key block and then the
      block of the carried counter. */
  lemma {:induction false} NextBytes(e: Cipher, s: Carried, pieces: Pieces, i: nat)
    requires s.left <= 16 && i < s.left + 16 && i < |Concat(pieces)|
    ensures |FedAll(e, s, pieces)| == |Concat(pieces)|
    ensures FedAll(e, s, pieces)[i] == Mixed(Concat(pieces)[i], Key(e, s, i))
    decreases |pieces|
  {
    hide Fed, Next, Mixed, Key;
    var piece, rest := pieces[0], pieces[1..];
    FedLength(e, s, pieces);
    if i < |piece| {
      FedByte(e, s, piece, i);
    } else {
      KeyCarriedOn(e, s, piece, i);
      NextBytes(e, Next(e, s, piece), rest, i - |piece|);
    }
  }

  lemma {:induction false} FedLength(e: Cipher, s: Carried, pieces: Pieces)
    requires s.left <= 16
    ensures |FedAll(e, s, pieces)| == |Concat(pieces)|
    decreases |pieces|
  {
    hide Fed, Next;
    if pieces != [] {
      FedLength(e, Next(e, s, pieces[0]), pieces[1..]);
    }
  }

  lemma KeyCarriedOn(e: Cipher, s: Carried, piece: seq<Byte>, i: nat)
    requires s.left <= 16 && |piece| <= i < s.left + 16
    ensures i - |piece| < Next(e, s, piece).left + 16
    ensures Key(e, Next(e, s, piece), i - |piece|) == Key(e, s, i)
  {
    hide AddLow, NextCounter;
    AddLowZero(s.counter);
  }

  /** However a message is cut, the pieces come out as one call would have, unless a counter is used
      that a call has spoilt. */
  lemma {:induction false} AnyCutsCorrect(e: Cipher, icb: Block, m: seq<Byte>, done: nat, s: Carried, pieces: Pieces)
    requires InSync(e, icb, done, s) && done <= |m| && Concat(pieces) == m[done..] && Unspoilt(icb, done, pieces)
    ensures FedAll(e, s, pieces) == Ctr(e, icb, m)[done..]
    decreases |pieces|
  {
    hide Fed, Next, Ctr, AddLow, Spoils, Blocks;
    if pieces != [] {
      var piece, rest := pieces[0], pieces[1..];
      var now := done + |piece|;
      Cut(m, done, piece, Concat(rest));
      PieceCorrect(e, icb, m, done, Blocks(done), s, piece);
      CarriedExact(e, icb, done, s, piece);
      assert Ctr(e, icb, m)[done..] == Ctr(e, icb, m)[done..now] + Ctr(e, icb, m)[now..];
      if Spoils(icb, done, piece) {
        RestServed(e, icb, m, now, Blocks(now), Next(e, s, piece), rest);
      } else {
        AnyCutsCorrect(e, icb, m, now, Next(e, s, piece), rest);
      }
    }
  }

  lemma Cut(m: seq<Byte>, done: nat, piece: seq<Byte>, rest: seq<Byte>)
    requires done <= |m| && piece + rest == m[done..]
    ensures done + |piece| <= |m| && m[done..done + |piece|] == piece && m[done + |piece|..] == rest
  {
    assert m[done..][..|piece|] == piece && m[done..][|piece|..] == rest;
  }

  /** A rest of the message that the last key block can serve. */
  lemma RestServed(e: Cipher, icb: Block, m: seq<Byte>, done: nat, block: nat, s: Carried, pieces: Pieces)
    requires Fits(e, icb, done, block, s) && done <= |m| && Concat(pieces) == m[done..] && |m| - done <= s.left
    ensures FedAll(e, s, pieces) == Ctr(e, icb, m)[done..]
  {
    hide FedAll, Ctr, AddLow, Mixed, Key, RightKey;
    FedLength(e, s, pieces);
    var served, wanted := FedAll(e, s, pieces), Ctr(e, icb, m)[done..];
    forall i | 0 <= i < |served| ensures served[i] == wanted[i] {
      NextBytes(e, s, pieces, i);
      CarriedKey(e, icb, done, block, s, i);
      MessageByte(e, icb, m, done + i);
    }
  }

  /** After the first call that spoils the counter either nothing is left for another call, or a block. */
  ghost predicate Decisive(icb: Block, done: nat, pieces: Pieces)
    decreases |pieces|
  {
    pieces == [] ||
    var now := done + |pieces[0]|;
    if Spoils(icb, done, pieces[0]) then
      |Concat(pieces[1..])| <= Unused(now) || |Concat(pieces[1..])| >= Unused(now) + 16
    else Decisive(icb, now, pieces[1..])
  }

  lemma {:induction false} AnyCutsFail(core: Core, icb: Block, m: seq<Byte>, done: nat, s: Carried, pieces: Pieces)
    requires Permutation(core) && InSync(core.enc, icb, done, s) && done <= |m| && Concat(pieces) == m[done..]
    requires Decisive(icb, done, pieces) && !Unspoilt(icb, done, pieces)
    ensures FedAll(core.enc, s, pieces) != Ctr(core.enc, icb, m)[done..]
    decreases |pieces|
  {
    hide Fed, Next, Ctr, AddLow, Spoils, Permutation, Blocks;
    var e, piece, rest := core.enc, pieces[0], pieces[1..];
    var now := done + |piece|;
    Cut(m, done, piece, Concat(rest));
    CarriedExact(e, icb, done, s, piece);
    var s' := Next(e, s, piece);
    if Spoils(icb, done, piece) {
      SpoiltBlock(core, icb, m, now, s', rest);
    } else {
      AnyCutsFail(core, icb, m, now, s', rest);
    }
    assert Ctr(e, icb, m)[done..][|piece|..] == Ctr(e, icb, m)[now..];
    assert FedAll(e, s, pieces)[|piece|..] == FedAll(e, s', rest);
  }

  /** The first whole block under a spoilt counter comes out wrong, however it is cut. */
  lemma SpoiltBlock(core: Core, icb: Block, m: seq<Byte>, done: nat, s: Carried, pieces: Pieces)
    requires Permutation(core) && s.left == Unused(done) && s.counter != AddLow(icb, Blocks(done))
    requires done <= |m| && Concat(pieces) == m[done..] && |m| - done >= s.left + 16
    ensures FedAll(core.enc, s, pieces) != Ctr(core.enc, icb, m)[done..]
  {
    hide FedAll, Ctr, AddLow, Mixed, Permutation, Key, RightKey;
    var i := WrongByte(core, icb, done, Blocks(done), s);
    NextBytes(core.enc, s, pieces, i);
    MessageByte(core.enc, icb, m, done + i);
    MixedDiffers(m[done + i], Key(core.enc, s, i), RightKey(core.enc, icb, done + i));
    assert Concat(pieces)[i] == m[done + i];
    assert Ctr(core.enc, icb, m)[done..][i] == Ctr(core.enc, icb, m)[done + i];
  }

  /** A byte of the block under a wrong counter that meets the wrong key byte. */
  lemma WrongByte(core: Core, icb: Block, done: nat, block: nat, s: Carried) returns (i: nat)
    requires Permutation(core) && 16 * block == done + s.left && s.left <= 16 && s.counter != AddLow(icb, block)
    ensures s.left <= i < s.left + 16 && Key(core.enc, s, i) != RightKey(core.enc, icb, done + i)
  {
    hide AddLow, Permutation;
    var j := FirstDifference(core, s.counter, AddLow(icb, block));
    i := s.left + j;
    AddLowZero(s.counter);
    BlockIndex(16 * block, j);
  }

  lemma FirstDifference(core: Core, a: Block, b: Block) returns (j: nat)
    requires Permutation(core) && a != b
    ensures j < 16 && core.enc(a)[j] != core.enc(b)[j]
  {
    DifferentKeys(core, ZERO_BLOCK, a, b);
    var x, y := core.enc(a), core.enc(b);
    j :| 0 <= j < 16 && x[j] != y[j];
  }

  lemma MixedDiffers(x: Byte, a: Byte, b: Byte)
    requires a != b
    ensures Mixed(x, a) != Mixed(x, b)
  {
  }

  /** Cut into any number of pieces of any sizes, a message comes out right exactly when no counter is
      used that a call has spoilt. */
  lemma AnyCutsExact(core: Core, icb: Block, last: Block, pieces: Pieces)
    requires Permutation(core) && Decisive(icb, 0, pieces)
    ensures FedAll(core.enc, Carried(icb, last, 0), pieces) == Ctr(core.enc, icb, Concat(pieces))
      <==> Unspoilt(icb, 0, pieces)
  {
    hide FedAll, Ctr, AddLow, Unspoilt, Decisive;
    if Unspoilt(icb, 0, pieces) {
      FromStart(core.enc, icb, last, pieces);
    } else {
      var m := Concat(pieces);
      AddLowZero(icb);
      assert m[0..] == m && Ctr(core.enc, icb, m)[0..] == Ctr(core.enc, icb, m);
      AnyCutsFail(core, icb, m, 0, Carried(icb, last, 0), pieces);
    }
  }

  /** A counter one below a carry, and a first piece of one block. */
  function EdgeCounter(): Block { [0, 0, 0, 0, 0, 0, 0, 0, 0, 0, 0, 0, 0xFF, 0xFF, 0xFF, 0xFE] }

  /** Whatever follows it in pieces of any sizes comes out wrong from its first whole block on. */
  lemma EdgeFails(core: Core, first: Block, last: Block, rest: Pieces)
    requires Permutation(core) && |Concat(rest)| >= 16
    ensures FedAll(core.enc, Carried(EdgeCounter(), last, 0), [first] + rest)
         != Ctr(core.enc, EdgeCounter(), first + Concat(rest))
  {
    hide FedAll, Ctr, AddLow, AllOnes;
    var pieces := [first] + rest;
    assert pieces[1..] == rest;
    EdgeSpoilt();
    AnyCutsExact(core, EdgeCounter(), last, pieces);
  }

  lemma EdgeSpoilt()
    ensures AllOnes(AddLow(EdgeCounter(), 1)[12..])
  {
    AddLowIsUp(EdgeCounter());
    var low := EdgeCounter()[12..];
    assert low == [0xFF, 0xFF, 0xFF, 0xFE] && Up(low) == [0xFF, 0xFF, 0xFF, 0xFF];
  }

  // ---- Two calls ----

  /** A message processed in two calls cut after k bytes, the first one possibly empty: the last szLeft
      bytes of counterlast serve the next bytes, and the second call starts from the returned counter. */
  function Chained(e: Cipher, counter: Block, m: seq<Byte>, k: nat): (r: seq<Byte>)
    requires k <= |m|
  {
    Ctr(e, counter, m[..k]) + Fed(e, Called(e, counter, k), m[k..])
  }

  lemma CalledFits(e: Cipher, counter: Block, k: nat)
    ensures Fits(e, counter, k, BlocksUsed(k), Called(e, counter, k))
    ensures Called(e, counter, k).counter == AddLow(counter, BlocksUsed(k))
      <==> !AllOnes(AddLow(counter, BlocksUsed(k))[12..])
  {
    hide AddLow, NextCounter, AllOnes, BlocksUsed;
    NextCounterExact(counter, BlocksUsed(k));
  }

  /** Chaining equals one call whenever the second call is empty or the counter it starts from is
      not spoilt by the read-back. */
  lemma ChainingCorrect(e: Cipher, counter: Block, m: seq<Byte>, k: nat)
    requires k <= |m|
    requires |m| <= 16 * BlocksUsed(k) || !AllOnes(AddLow(counter, BlocksUsed(k))[12..])
    ensures Chained(e, counter, m, k) == Ctr(e, counter, m)
  {
    hide Fed, Called, AddLow, Ctr, AllOnes, BlocksUsed;
    CalledFits(e, counter, k);
    CtrPrefix(e, counter, m, k);
    PieceCorrect(e, counter, m, k, BlocksUsed(k), Called(e, counter, k), m[k..]);
    var whole := Ctr(e, counter, m);
    assert whole == whole[..k] + whole[k..|m|];
  }

  /** When the next counter's low word is all ones, a second call of a block or more comes out wrong,
      for every message and every cipher that is a permutation. */
  lemma ChainingFails(core: Core, counter: Block, m: seq<Byte>, k: nat)
    requires Permutation(core) && k <= |m|
    requires 16 * BlocksUsed(k) + 16 <= |m| && AllOnes(AddLow(counter, BlocksUsed(k))[12..])
    ensures Chained(core.enc, counter, m, k) != Ctr(core.enc, counter, m)
  {
    hide Fed, Called, AddLow, Ctr, AllOnes, BlocksUsed, Mixed, Permutation, Key, RightKey;
    var e, s := core.enc, Called(core.enc, counter, k);
    CalledFits(e, counter, k);
    var i := WrongByte(core, counter, k, BlocksUsed(k), s);
    FedByte(e, s, m[k..], i);
    MessageByte(e, counter, m, k + i);
    MixedDiffers(m[k + i], Key(e, s, i), RightKey(e, counter, k + i));
    assert Chained(e, counter, m, k)[k + i] == Fed(e, s, m[k..])[i];
  }

  /** With a block or more left for the second call, chaining works exactly then. */
  lemma ChainingExact(core: Core, counter: Block, m: seq<Byte>, k: nat)
    requires Permutation(core) && k <= |m| && 16 * BlocksUsed(k) + 16 <= |m|
    ensures Chained(core.enc, counter, m, k) == Ctr(core.enc, counter, m)
      <==> !AllOnes(AddLow(counter, BlocksUsed(k))[12..])
  {
    hide Chained, Ctr, AddLow, AllOnes;
    if AllOnes(AddLow(counter, BlocksUsed(k))[12..]) {
      ChainingFails(core, counter, m, k);
    } else {
      ChainingCorrect(core.enc, counter, m, k);
    }
  }

  // ---- The caller's loop ----

  /** One piece through the driver: the bridge by the caller, then a call for the rest. */
  method FeedPiece(e: Engine, piece: array<Byte>, counter: array<Byte>, counterlast: array<Byte>, left: nat)
    returns (out: seq<Byte>, left': nat)
    requires e.regs.keyValid && left <= 16 && counter.Length == counterlast.Length == 16
    requires counter != counterlast && piece != counter && piece != counterlast
    modifies e, counter, counterlast
    ensures e.regs.keyValid
    ensures out == Fed(e.core.enc, Carried(old(counter[..]), old(counterlast[..]), left), piece[..])
    ensures Carried(counter[..], counterlast[..], left')
         == Next(e.core.enc, Carried(old(counter[..]), old(counterlast[..]), left), piece[..])
  {
    hide Ctr, AddLow, NextCounter, Xor;
    var b := Min(left, piece.Length);
    out := Xor(piece[..b], counterlast[16 - left..][..b]);
    left' := left - b;
    if b < piece.Length {
      var n := piece.Length - b;
      var input := new Byte[n](i requires 0 <= i < n reads piece => piece[b + i]);
      var output := new Byte[n](i => 0);
      assert input[..n] == piece[..][b..];
      var status;
      status, left' := CryptCtr(e, input, output, n, counter, counterlast);
      out := out + output[..];
    } else {
      NothingCrypted(e.core.enc, counter[..]);
      assert piece[..][b..] == [];
    }
  }

  lemma NothingCrypted(e: Cipher, icb: Block)
    ensures Ctr(e, icb, []) == []
  {
  }

  /** All pieces, one after the other. */
  method FeedPieces(e: Engine, pieces: Pieces, counter: array<Byte>, counterlast: array<Byte>)
    returns (out: seq<Byte>)
    requires e.regs.keyValid && counter.Length == counterlast.Length == 16 && counter != counterlast
    modifies e, counter, counterlast
    ensures out == FedAll(e.core.enc, Carried(old(counter[..]), old(counterlast[..]), 0), pieces)
    ensures Unspoilt(old(counter[..]), 0, pieces) ==> out == Ctr(e.core.enc, old(counter[..]), Concat(pieces))
  {
    hide Fed, Next, Ctr, Unspoilt, AddLow;
    ghost var start := Carried(counter[..], counterlast[..], 0);
    out := [];
    var left, i := 0, 0;
    assert pieces[0..] == pieces;
    while i < |pieces|
      invariant i <= |pieces| && left <= 16 && e.regs.keyValid
      invariant out + FedAll(e.core.enc, Carried(counter[..], counterlast[..], left), pieces[i..])
             == FedAll(e.core.enc, start, pieces)
    {
      var text := pieces[i];
      var piece := new Byte[|text|](k requires 0 <= k < |text| => text[k]);
      assert piece[..] == text;
      ghost var now := Carried(counter[..], counterlast[..], left);
      var more, left' := FeedPiece(e, piece, counter, counterlast, left);
      FedFirst(e.core.enc, now, pieces, i);
      out, left, i := out + more, left', i + 1;
    }
    if Unspoilt(start.counter, 0, pieces) {
      FromStart(e.core.enc, start.counter, start.last, pieces);
    }
  }

  lemma FedFirst(e: Cipher, s: Carried, pieces: Pieces, i: nat)
    requires i < |pieces| && s.left <= 16
    ensures FedAll(e, s, pieces[i..]) == Fed(e, s, pieces[i]) + FedAll(e, Next(e, s, pieces[i]), pieces[i + 1..])
  {
    hide Fed, Next;
    assert pieces[i..][0] == pieces[i] && pieces[i..][1..] == pieces[i + 1..];
  }

  lemma FromStart(e: Cipher, icb: Block, last: Block, pieces: Pieces)
    requires Unspoilt(icb, 0, pieces)
    ensures FedAll(e, Carried(icb, last, 0), pieces) == Ctr(e, icb, Concat(pieces))
  {
    hide FedAll, Ctr, AddLow, Unspoilt;
    AddLowZero(icb);
    var m := Concat(pieces);
    assert m[0..] == m && Ctr(e, icb, m)[0..] == Ctr(e, icb, m);
    AnyCutsCorrect(e, icb, m, 0, Carried(icb, last, 0), pieces);
  }
}
