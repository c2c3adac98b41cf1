/** What a run of the blocking ASRC conversion leaves in output memory (drivers/asrc/fsl_asrc.c:112-124,
    700-726, 776-796). */
module AsrcLayout {
  import opened Bytes
  import opened Powers

  const FIFO_DEPTH: nat := 64

  // ---- Words stored a width apart ----

  /** Words stored one behind the other, each cut to its width by the next store. */
  ghost function Stored(words: seq<bv32>, w: nat): (r: seq<Byte>)
    requires w == 2 || w == 4
    ensures |r| == |words| * w
  {
    if words == [] then [] else
      var n := |words| - 1;
      Stored(words[..n], w) + StoreWord(words[n])[..w]
  }

  lemma {:induction false} StoredAppend(a: seq<bv32>, b: seq<bv32>, w: nat)
    requires w == 2 || w == 4
    ensures Stored(a + b, w) == Stored(a, w) + Stored(b, w)
  {
    hide StoreWord;
    if b == [] {
      assert a + b == a;
    } else {
      var n := |b| - 1;
      StoredAppend(a, b[..n], w);
      assert (a + b)[..|a| + n] == a + b[..n];
    }
  }

  /** There is memory for n words stored w bytes apart from offset at on, the last one whole. */
  predicate Room(size: nat, at: nat, n: nat, w: nat) {
    at + n * w + 4 <= size + w
  }

  /** The bytes a read writes: the samples and, every store being a whole word, the upper bytes of
      the last one behind them. */
  ghost function Written(words: seq<bv32>, w: nat): (r: seq<Byte>)
    requires (w == 2 || w == 4) && words != []
    ensures |r| == |words| * w + 4 - w
  {
    Stored(words, w) + StoreWord(words[|words| - 1])[w..]
  }

  /** Memory after a read. */
  ghost function Laid(mem: seq<Byte>, at: nat, words: seq<bv32>, w: nat): (r: seq<Byte>)
    requires (w == 2 || w == 4) && Room(|mem|, at, |words|, w)
    ensures |r| == |mem|
  {
    if words == [] then mem else Splice(mem, at, Written(words, w))
  }

  lemma LaidParts(mem: seq<Byte>, at: nat, words: seq<bv32>, w: nat)
    requires (w == 2 || w == 4) && Room(|mem|, at, |words|, w) && at <= |mem|
    ensures at + |words| * w <= |mem|
    ensures Laid(mem, at, words, w)[..at] == mem[..at]
    ensures Laid(mem, at, words, w)[..at + |words| * w] == mem[..at] + Stored(words, w)
    ensures forall i | 0 <= i && at + |words| * w + 4 - w <= i < |mem| :: Laid(mem, at, words, w)[i] == mem[i]
  {
    hide Stored, StoreWord;
    NothingStored(w);
    if words != [] {
      SpliceParts(mem, at, Stored(words, w), StoreWord(words[|words| - 1])[w..]);
    }
  }

  lemma SpliceParts(mem: seq<Byte>, at: nat, s: seq<Byte>, u: seq<Byte>)
    requires at + |s| + |u| <= |mem|
    ensures Splice(mem, at, s + u)[..at] == mem[..at]
    ensures Splice(mem, at, s + u)[..at + |s|] == mem[..at] + s
    ensures forall i | at + |s| + |u| <= i < |mem| :: Splice(mem, at, s + u)[i] == mem[i]
  {
  }

  lemma NothingStored(w: nat)
    requires w == 2 || w == 4
    ensures Stored([], w) == []
  {
  }

  lemma SpliceTwice(mem: seq<Byte>, at: nat, s: seq<Byte>, u: seq<Byte>, t: seq<Byte>, v: seq<Byte>)
    requires |u| == |v| && at + |s| + |t| + |v| <= |mem|
    ensures Splice(Splice(mem, at, s + u), at + |s|, t + v) == Splice(mem, at, (s + t) + v)
  {
  }

  /** Two reads, the second one where the first one ended, are one read. */
  lemma LaidAppend(mem: seq<Byte>, at: nat, a: seq<bv32>, b: seq<bv32>, w: nat)
    requires (w == 2 || w == 4) && Room(|mem|, at, |a|, w) && Room(|mem|, at + |a| * w, |b|, w)
    ensures Room(|mem|, at, |a + b|, w)
    ensures Laid(Laid(mem, at, a, w), at + |a| * w, b, w) == Laid(mem, at, a + b, w)
  {
    hide Stored, StoreWord, Splice;
    Distribute(|a|, |b|, w);
    assert |a + b| == |a| + |b|;
    if a == [] {
      assert a + b == b;
    } else if b == [] {
      assert a + b == a;
    } else {
      StoredAppend(a, b, w);
      SpliceTwice(mem, at, Stored(a, w), StoreWord(a[|a| - 1])[w..], Stored(b, w), StoreWord(b[|b| - 1])[w..]);
      assert (a + b)[|a + b| - 1] == b[|b| - 1];
    }
  }

  /** The lowest byte of sample k. */
  lemma StoredAt(words: seq<bv32>, w: nat, k: nat)
    requires (w == 2 || w == 4) && k < |words|
    ensures k * w < |words| * w && Stored(words, w)[k * w] == StoreWord(words[k])[0]
  {
    MulLt(k, |words|, w);
    assert words == words[..k] + words[k..] && words[k..] == [words[k]] + words[k + 1..];
    StoredAppend(words[..k], words[k..], w);
    StoredAppend([words[k]], words[k + 1..], w);
    assert Stored([words[k]], w) == StoreWord(words[k])[..w] by { assert [words[k]][..0] == []; }
  }

  // ---- Runs ----

  /** What a call asks for: samples in all, output watermark and channel count, bytes per sample. */
  datatype Request = Request(total: nat, threshold: nat, channels: nat, width: nat)

  predicate ValidRequest(r: Request) { (r.width == 2 || r.width == 4) && r.threshold < FIFO_DEPTH }

  /** Samples one output interrupt is worth. */
  function WaterMark(r: Request): nat { r.threshold * r.channels }

  /** Where the last word of the whole output ends, w bytes of it being the last sample. */
  function End(r: Request): nat
    requires ValidRequest(r)
  {
    r.total * r.width + 4 - r.width
  }

  /** Samples a pass reads with that many still wanted: a watermark while more than one is wanted,
      then whatever the FIFO is seen to hold. */
  function Taken(r: Request, left: nat, fill: nat): (n: nat)
    ensures n <= left
  {
    if left > WaterMark(r) then WaterMark(r)
    else if left < fill * r.channels then left
    else fill * r.channels
  }

  /** A run is the fill, in frames, at each pass that reads the output. */
  type Run = seq<nat>

  ghost predicate IsRun(run: Run) { forall i | 0 <= i < |run| :: run[i] < 128 }

  ghost function Left(r: Request, run: Run): (n: nat)
    ensures n <= r.total
  {
    if run == [] then r.total else
      var k := |run| - 1;
      var left := Left(r, run[..k]);
      left - Taken(r, left, run[k])
  }

  /** The sample position the next read stores to; only whole watermarks move it. */
  ghost function Place(r: Request, run: Run): (n: nat)
    ensures n + Left(r, run) <= r.total
  {
    if run == [] then 0 else
      var k := |run| - 1;
      var left := Left(r, run[..k]);
      Place(r, run[..k]) + if left > WaterMark(r) then WaterMark(r) else 0
  }

  /** The byte offset of that position. */
  ghost function Offset(r: Request, run: Run): nat { Place(r, run) * r.width }

  /** Output memory after a run that read those words. */
  ghost function After(r: Request, run: Run, words: seq<bv32>, mem: seq<Byte>): (m: seq<Byte>)
    requires ValidRequest(r) && Room(|mem|, 0, r.total, r.width) && |words| + Left(r, run) == r.total
    ensures |m| == |mem|
  {
    hide Room, WaterMark, Taken, Place, Offset, Laid;
    if run == [] then mem else
      var k := |run| - 1;
      var n := |words| - Taken(r, Left(r, run[..k]), run[k]);
      var m := After(r, run[..k], words[..n], mem);
      ReadFits(r, run[..k], run[k], |mem|);
      Laid(m, Offset(r, run[..k]), words[n..], r.width)
  }

  lemma ReadFits(r: Request, run: Run, fill: nat, size: nat)
    requires ValidRequest(r) && Room(size, 0, r.total, r.width)
    ensures Room(size, Offset(r, run), Taken(r, Left(r, run), fill), r.width)
    ensures (Place(r, run) + Taken(r, Left(r, run), fill)) * r.width <= r.total * r.width
  {
    var at, n := Place(r, run), Taken(r, Left(r, run), fill);
    Distribute(at, n, r.width);
    MulLe(at + n, r.total, r.width);
  }

  /** One more pass, reading the words more. */
  lemma NextPass(r: Request, run: Run, fill: nat, words: seq<bv32>, more: seq<bv32>, mem: seq<Byte>)
    requires ValidRequest(r) && Room(|mem|, 0, r.total, r.width) && |words| + Left(r, run) == r.total
    requires |more| == Taken(r, Left(r, run), fill)
    ensures Left(r, run + [fill]) == Left(r, run) - |more|
    ensures Place(r, run + [fill]) == Place(r, run) + if Left(r, run) > WaterMark(r) then |more| else 0
    ensures Room(|mem|, Offset(r, run), |more|, r.width)
    ensures After(r, run + [fill], words + more, mem)
         == Laid(After(r, run, words, mem), Offset(r, run), more, r.width)
  {
    hide Laid;
    ReadFits(r, run, fill, |mem|);
    assert (run + [fill])[..|run|] == run;
    assert (words + more)[..|words|] == words && (words + more)[|words|..] == more;
  }

  /** The last pass of a run. */
  lemma LastPass(r: Request, run: Run, words: seq<bv32>, mem: seq<Byte>)
    returns (before: Run, fill: nat, done: seq<bv32>, more: seq<bv32>)
    requires ValidRequest(r) && Room(|mem|, 0, r.total, r.width) && |words| + Left(r, run) == r.total
    requires run != []
    ensures run == before + [fill] && before == run[..|run| - 1] && words == done + more
    ensures |done| + Left(r, before) == r.total && |more| == Taken(r, Left(r, before), fill)
    ensures Left(r, run) == Left(r, before) - |more|
    ensures Place(r, run) == Place(r, before) + if Left(r, before) > WaterMark(r) then |more| else 0
    ensures (Place(r, before) + |more|) * r.width <= r.total * r.width
    ensures Offset(r, before) + |more| * r.width == (Place(r, before) + |more|) * r.width
    ensures Room(|mem|, Offset(r, before), |more|, r.width)
    ensures After(r, run, words, mem)
         == Laid(After(r, before, done, mem), Offset(r, before), more, r.width)
  {
    hide Laid;
    var k := |run| - 1;
    before, fill := run[..k], run[k];
    var n := |words| - Taken(r, Left(r, before), fill);
    done, more := words[..n], words[n..];
    ReadFits(r, before, fill, |mem|);
    Distribute(Place(r, before), |more|, r.width);
  }

  // ---- What every run leaves ----

  /** No byte past the last word is ever changed. */
  lemma {:induction false} LaterMemoryKept(r: Request, run: Run, words: seq<bv32>, mem: seq<Byte>)
    requires ValidRequest(r) && Room(|mem|, 0, r.total, r.width) && |words| + Left(r, run) == r.total
    ensures forall i | End(r) <= i < |mem| :: After(r, run, words, mem)[i] == mem[i]
  {
    hide Laid, Left, Place, Taken, After;
    if run == [] {
      NoPass(r, mem);
    } else {
      var before, fill, done, more := LastPass(r, run, words, mem);
      LaterMemoryKept(r, before, done, mem);
      LaidParts(After(r, before, done, mem), Offset(r, before), more, r.width);
    }
  }

  lemma NoPass(r: Request, mem: seq<Byte>)
    requires ValidRequest(r) && Room(|mem|, 0, r.total, r.width)
    ensures Left(r, []) == r.total && Place(r, []) == 0 && After(r, [], [], mem) == mem
    ensures Room(|mem|, 0, 0, r.width) && Laid(mem, 0, [], r.width) == mem
  {
    MulLe(0, r.total, r.width);
  }

  /** The address has kept up with what was read: no part of the tail has been read. */
  ghost predicate InStep(r: Request, run: Run) { Place(r, run) + Left(r, run) == r.total }

  /** While the address keeps up, memory is as after one read of everything. */
  lemma {:induction false} InStepLayout(r: Request, run: Run, words: seq<bv32>, mem: seq<Byte>)
    requires ValidRequest(r) && Room(|mem|, 0, r.total, r.width) && |words| + Left(r, run) == r.total
    requires run != [] ==> InStep(r, run[..|run| - 1])
    ensures Room(|mem|, 0, |words|, r.width) && After(r, run, words, mem) == Laid(mem, 0, words, r.width)
  {
    hide Laid, Left, Place, Taken, After;
    MulLe(|words|, r.total, r.width);
    if run == [] {
      NoPass(r, mem);
    } else {
      var before, fill, done, more := LastPass(r, run, words, mem);
      if before != [] {
        EarlierInStep(r, before);
      }
      InStepLayout(r, before, done, mem);
      LaidAppend(mem, 0, done, more, r.width);
    }
  }

  lemma EarlierInStep(r: Request, run: Run)
    requires run != [] && InStep(r, run)
    ensures InStep(r, run[..|run| - 1])
  {
  }

  /** Samples in the tail: what is left after as many whole watermarks as leave something. */
  function Tail(r: Request): (n: nat)
    requires r.total > 0 && WaterMark(r) > 0
    ensures 1 <= n <= WaterMark(r)
  {
    (r.total - 1) % WaterMark(r) + 1
  }

  /** The address stops where the tail begins. */
  lemma {:induction false} TailPlace(r: Request, run: Run)
    requires r.total > 0 && WaterMark(r) > 0
    ensures Place(r, run) % WaterMark(r) == 0
    ensures if Left(r, run) > WaterMark(r) then InStep(r, run) else Place(r, run) + Tail(r) == r.total
  {
    var m := WaterMark(r);
    if run == [] {
      if r.total <= m {
        DivModUnique(r.total - 1, m, 0, r.total - 1);
      }
    } else {
      var before := run[..|run| - 1];
      TailPlace(r, before);
      if Left(r, before) > m {
        var q := Place(r, before) / m;
        DivModEquation(Place(r, before), m);
        Distribute(q, 1, m);
        DivModUnique(Place(r, run), m, q + 1, 0);
        if Left(r, run) <= m {
          DivModUnique(r.total - 1, m, q + 1, r.total - 1 - Place(r, run));
        }
      }
    }
  }

  /** All samples before the tail lie in order, whatever the tail did. */
  lemma {:induction false} HeadInOrder(r: Request, run: Run, words: seq<bv32>, mem: seq<Byte>)
    requires ValidRequest(r) && Room(|mem|, 0, r.total, r.width) && |words| + Left(r, run) == r.total
    ensures Place(r, run) <= |words| && Offset(r, run) <= |mem|
    ensures After(r, run, words, mem)[..Offset(r, run)] == Stored(words[..Place(r, run)], r.width)
  {
    hide Laid, Left, Place, Taken, After, Stored;
    MulLe(Place(r, run), r.total, r.width);
    if run == [] {
      NoPass(r, mem);
      NothingStored(r.width);
    } else {
      var before, fill, done, more := LastPass(r, run, words, mem);
      var at := Place(r, before);
      HeadInOrder(r, before, done, mem);
      LaidParts(After(r, before, done, mem), Offset(r, before), more, r.width);
      assert words[..at] == done[..at];
      if Left(r, before) > WaterMark(r) {
        BeforeTail(r, before);
        assert done[..at] == done && words[..Place(r, run)] == words;
        StoredAppend(done, more, r.width);
      }
    }
  }

  lemma {:induction false} BeforeTail(r: Request, run: Run)
    requires Left(r, run) > WaterMark(r)
    ensures InStep(r, run)
  {
    if run != [] {
      BeforeTail(r, run[..|run| - 1]);
    }
  }

  /** With a watermark of zero no pass reads anything. */
  lemma {:induction false} ZeroMarkReadsNothing(r: Request, run: Run)
    requires WaterMark(r) == 0 && r.total > 0
    ensures Left(r, run) == r.total
  {
    if run != [] {
      ZeroMarkReadsNothing(r, run[..|run| - 1]);
    }
  }

  // ---- When the whole output lies in order ----

  /** No frame of the tail can be missing once there is one: the tail is at most one frame. */
  predicate TailFits(r: Request) {
    r.total == 0 || WaterMark(r) == 0 || Tail(r) <= r.channels
  }

  lemma {:induction false} TailTogether(r: Request, run: Run)
    requires TailFits(r)
    ensures Left(r, run) == 0 || InStep(r, run)
  {
    if run != [] {
      var k := |run| - 1;
      var before := run[..k];
      TailTogether(r, before);
      if r.total > 0 && WaterMark(r) == 0 {
        ZeroMarkReadsNothing(r, run);
      } else if 0 < Left(r, before) <= WaterMark(r) {
        TailPlace(r, before);
        if run[k] > 0 {
          MulLe(1, run[k], r.channels);
        }
      }
    }
  }

  /** Then memory is as after one read of everything, at every point of every run. */
  lemma {:induction false} WholeInOrder(r: Request, run: Run, words: seq<bv32>, mem: seq<Byte>)
    requires ValidRequest(r) && Room(|mem|, 0, r.total, r.width) && |words| + Left(r, run) == r.total && TailFits(r)
    ensures Room(|mem|, 0, |words|, r.width) && After(r, run, words, mem) == Laid(mem, 0, words, r.width)
  {
    hide Laid, Left, Place, Taken, After, TailFits, InStep;
    if run == [] {
      InStepLayout(r, run, words, mem);
    } else {
      var before, fill, done, more := LastPass(r, run, words, mem);
      TailTogether(r, before);
      if InStep(r, before) {
        InStepLayout(r, run, words, mem);
      } else {
        assert more == [] && words == done;
        WholeInOrder(r, before, done, mem);
        LaidEmpty(After(r, before, done, mem), Offset(r, before), r.width);
      }
    }
  }

  lemma LaidEmpty(mem: seq<Byte>, at: nat, w: nat)
    requires (w == 2 || w == 4) && Room(|mem|, at, 0, w)
    ensures Laid(mem, at, [], w) == mem
  {
  }

  /** A run that reaches the tail without reading of it. */
  lemma {:induction false} RunToTail(r: Request, k: nat) returns (run: Run)
    requires WaterMark(r) > 0 && k * WaterMark(r) < r.total && r.threshold < FIFO_DEPTH
    ensures IsRun(run) && InStep(r, run) && Place(r, run) == k * WaterMark(r)
  {
    if k == 0 {
      run := [];
    } else {
      Distribute(k - 1, 1, WaterMark(r));
      var before := RunToTail(r, k - 1);
      run := before + [r.threshold];
      assert run[..|before|] == before;
    }
  }

  lemma ReachTail(r: Request) returns (run: Run)
    requires ValidRequest(r) && r.total > 0 && WaterMark(r) > 0
    ensures IsRun(run) && InStep(r, run) && Left(r, run) == Tail(r)
  {
    var m := WaterMark(r);
    DivModEquation(r.total - 1, m);
    run := RunToTail(r, (r.total - 1) / m);
  }

  /** Every converting run leaves the samples in order. */
  ghost predicate AlwaysInOrder(r: Request)
    requires ValidRequest(r)
  {
    forall run: Run, words: seq<bv32>, mem: seq<Byte>
      | IsRun(run) && Left(r, run) == 0 && |words| == r.total && Room(|mem|, 0, r.total, r.width) ::
      After(r, run, words, mem)[..r.total * r.width] == Stored(words, r.width)
  }

  /** The samples lie in order after every converting run exactly when the tail is at most one frame. */
  lemma InOrderExact(r: Request)
    requires ValidRequest(r)
    ensures AlwaysInOrder(r) <==> TailFits(r)
  {
    hide Stored, Laid, Left, After, TailFits;
    if TailFits(r) {
      forall run: Run, words: seq<bv32>, mem: seq<Byte>
        | IsRun(run) && Left(r, run) == 0 && |words| == r.total && Room(|mem|, 0, r.total, r.width)
        ensures After(r, run, words, mem)[..r.total * r.width] == Stored(words, r.width)
      {
        WholeInOrder(r, run, words, mem);
        LaidParts(mem, 0, words, r.width);
      }
    } else {
      var run, words, mem := SamplesLost(r);
    }
  }

  /** A tail of more than one frame, seen when it has one frame and again when the rest is there: the
      rest is stored over that frame, which is lost. */
  lemma FrameLost(r: Request, words: seq<bv32>, mem: seq<Byte>) returns (run: Run)
    requires ValidRequest(r) && !TailFits(r) && |words| == r.total && Room(|mem|, 0, r.total, r.width)
    ensures IsRun(run) && Left(r, run) == 0
    ensures var p := r.total - Tail(r);
      && p >= 0 && (r.total - r.channels) * r.width <= |mem|
      && After(r, run, words, mem)[..(r.total - r.channels) * r.width]
         == Stored(words[..p] + words[p + r.channels..], r.width)
  {
    hide Stored, Laid, Left, After, Place, StoreWord, IsRun, Tail;
    var start := ReachTail(r);
    var p, w, c := Place(r, start), r.width, r.channels;
    MulLe(1, r.threshold, c);
    var none, first, more := words[..p], words[p..p + c], words[p + c..];
    assert words == none + first + more && |more| <= WaterMark(r);
    NextPass(r, start, 1, none, first, mem);
    NextPass(r, start + [1], r.threshold, none + first, more, mem);
    run := start + [1] + [r.threshold];
    RunExtended(start, 1);
    RunExtended(start + [1], r.threshold);
    HeadInOrder(r, start + [1], none + first, mem);
    LaidParts(After(r, start + [1], none + first, mem), p * w, more, w);
    assert (none + first)[..p] == none;
    StoredAppend(none, more, w);
    Distribute(p, |more|, w);
  }

  lemma RunExtended(run: Run, fill: nat)
    requires IsRun(run) && fill < 128
    ensures IsRun(run + [fill])
  {
  }

  /** With the first sample of the tail unlike all others, the loss shows. */
  lemma SamplesLost(r: Request) returns (run: Run, words: seq<bv32>, mem: seq<Byte>)
    requires ValidRequest(r) && !TailFits(r)
    ensures IsRun(run) && Left(r, run) == 0 && |words| == r.total && Room(|mem|, 0, r.total, r.width)
    ensures After(r, run, words, mem)[..r.total * r.width] != Stored(words, r.width)
  {
    hide Stored, Left, After, StoreWord, IsRun, Tail;
    var p, w := r.total - Tail(r), r.width;
    words := seq(r.total, i => if i == p then 1 else 0);
    mem := Zeros(r.total * w + 4 - w);
    run := FrameLost(r, words, mem);
    var kept := words[..p] + words[p + r.channels..];
    StoredAt(kept, w, p);
    StoredAt(words, w, p);
    StoredBits();
    var m := After(r, run, words, mem);
    MulLe(r.total - r.channels, r.total, w);
    assert m[p * w] == m[..(r.total - r.channels) * w][p * w];
    assert m[p * w] == m[..r.total * w][p * w];
  }

  lemma StoredBits()
    ensures StoreWord(0) == [0, 0, 0, 0] && StoreWord(1) == [1, 0, 0, 0]
  {
  }

  // ---- When the stores stay inside the buffer ----

  /** No run, finished or not, changes a byte past the first size bytes. */
  ghost predicate KeepsOutside(r: Request, size: nat)
    requires ValidRequest(r)
  {
    forall run: Run, words: seq<bv32>, mem: seq<Byte>
      | IsRun(run) && |words| + Left(r, run) == r.total && Room(|mem|, 0, r.total, r.width) && size <= |mem| ::
      After(r, run, words, mem)[size..] == mem[size..]
  }

  /** A call stays inside a buffer of the size it was given exactly when it stores nothing or stores
      samples of four bytes. */
  lemma OverrunExact(r: Request, size: nat)
    requires ValidRequest(r) && r.total == size / r.width
    ensures KeepsOutside(r, size) <==> r.total == 0 || WaterMark(r) == 0 || r.width == 4
  {
    hide Stored, Laid, Left, After;
    DivModEquation(size, r.width);
    if r.total == 0 || WaterMark(r) == 0 || r.width == 4 {
      forall run: Run, words: seq<bv32>, mem: seq<Byte>
        | IsRun(run) && |words| + Left(r, run) == r.total && Room(|mem|, 0, r.total, r.width) && size <= |mem|
        ensures After(r, run, words, mem)[size..] == mem[size..]
      {
        if r.width == 4 {
          LaterMemoryKept(r, run, words, mem);
        } else {
          if r.total > 0 {
            ZeroMarkReadsNothing(r, run);
          }
          WholeInOrder(r, run, words, mem);
          LaidEmpty(mem, 0, r.width);
        }
      }
    } else {
      var run, words, mem := StoresPastBuffer(r);
    }
  }

  /** The last store of a 16-bit transfer changes the two bytes behind the samples. */
  lemma StoresPastBuffer(r: Request) returns (run: Run, words: seq<bv32>, mem: seq<Byte>)
    requires ValidRequest(r) && r.width == 2 && r.total > 0 && WaterMark(r) > 0
    ensures IsRun(run) && Left(r, run) == 0 && |words| == r.total && |mem| == 2 * r.total + 2
    ensures After(r, run, words, mem)[2 * r.total + 1] != mem[2 * r.total + 1]
  {
    hide Stored, Left, After, Place, Splice, StoreWord;
    var start := ReachTail(r);
    run := start + [r.threshold];
    var p := Place(r, start);
    words := seq(r.total, i => 0);
    mem := seq(2 * r.total + 2, i => 0xFF);
    assert words == words[..p] + words[p..];
    NextPass(r, start, r.threshold, words[..p], words[p..], mem);
    assert run[..|start|] == start;
    InStepLayout(r, run, words, mem);
    assert Splice(mem, 0, Written(words, 2)) == Written(words, 2) by { SpliceAll(mem, Written(words, 2)); }
    StoredBits();
    assert StoreWord(0)[2..][1] == 0;
  }

  lemma SpliceAll(mem: seq<Byte>, b: seq<Byte>)
    requires |mem| == |b|
    ensures Splice(mem, 0, b) == b
  {
  }
}
