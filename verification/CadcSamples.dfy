/** CADC sample slots: sixteen slots, sixteen channels and eight channel pairs packed into 16-bit
    registers (drivers/cadc/fsl_cadc.c:20-31, 672-853). */
module CadcSamples {

  // ---- Fields of a 16-bit register ----

  /** Shift amounts are below sixteen. */
  function Put(r: bv16, mask: bv16, shift: bv16, v: bv16): bv16
    requires shift < 16
  {
    (r & !(mask << (shift as bv4))) | (v << (shift as bv4))
  }

  function Get(r: bv16, mask: bv16, shift: bv16): bv16
    requires shift < 16
  {
    (r >> (shift as bv4)) & mask
  }

  function SetBits(x: bv16, m: bv16): bv16 { x | m }
  function ClearBits(x: bv16, m: bv16): bv16 { x & !m }
  predicate HasBits(x: bv16, m: bv16) { x & m != 0 }
  predicate Apart(m: bv16, n: bv16) { m & n == 0 }
  predicate Inside(m: bv16, n: bv16) { m & n == m }

  function Bit(i: bv16): bv16
    requires i < 16
  {
    1 << (i as bv4)
  }

  lemma SetElsewhere(x: bv16, m: bv16, n: bv16)
    requires Apart(m, n)
    ensures HasBits(SetBits(x, m), n) == HasBits(x, n)
  {
  }

  lemma ClearElsewhere(x: bv16, m: bv16, n: bv16)
    requires Apart(m, n)
    ensures HasBits(ClearBits(x, m), n) == HasBits(x, n)
  {
  }

  lemma SetHere(x: bv16, m: bv16)
    requires m != 0
    ensures HasBits(SetBits(x, m), m)
  {
  }

  lemma ClearHere(x: bv16, m: bv16)
    ensures !HasBits(ClearBits(x, m), m)
  {
  }

  lemma SetInside(x: bv16, m: bv16, n: bv16)
    requires Inside(m, n)
    ensures ClearBits(SetBits(x, m), n) == ClearBits(x, n)
  {
  }

  lemma ClearInside(x: bv16, m: bv16, n: bv16)
    requires Inside(m, n)
    ensures ClearBits(ClearBits(x, m), n) == ClearBits(x, n)
  {
  }

  /** Two-bit fields: zero-crossing modes and gains. */
  lemma TwoBitField(r: bv16, i: bv16, j: bv16, v: bv16)
    requires i < 8 && j < 8 && v < 4
    ensures Get(Put(r, 3, 2 * i, v), 3, 2 * j) == if i == j then v else Get(r, 3, 2 * j)
  {
  }

  /** What a value of any width does to the four-bit fields: its own field takes its low four bits, and
      the others of its bits are added to the fields above. */
  function Spilt(r: bv16, i: bv16, j: bv16, v: bv16): bv16
    requires i < 4 && j < 4
  {
    if i == j then v & 0xF
    else if i < j then SetBits(Get(r, 0xF, 4 * j), Get(v, 0xF, 4 * (j - i)))
    else Get(r, 0xF, 4 * j)
  }

  /** Four-bit fields: channel numbers. */
  lemma FourBitField(r: bv16, i: bv16, j: bv16, v: bv16)
    requires i < 4 && j < 4
    ensures Get(Put(r, 0xF, 4 * i, v), 0xF, 4 * j) == Spilt(r, i, j, v)
  {
    hide Get, Put, SetBits;
    if i == j {
      FieldItself(r, i, v);
    } else if i < j {
      FieldAbove(r, i, j, v);
    } else {
      FieldBelow(r, i, j, v);
    }
  }

  lemma FieldItself(r: bv16, i: bv16, v: bv16)
    requires i < 4
    ensures Get(Put(r, 0xF, 4 * i, v), 0xF, 4 * i) == v & 0xF
  {
  }

  lemma FieldAbove(r: bv16, i: bv16, j: bv16, v: bv16)
    requires i < j < 4
    ensures Get(Put(r, 0xF, 4 * i, v), 0xF, 4 * j) == SetBits(Get(r, 0xF, 4 * j), Get(v, 0xF, 4 * (j - i)))
  {
    if i == 0 && j == 1 {
    } else if i == 0 && j == 2 {
    } else if i == 0 {
    } else if i == 1 && j == 2 {
    } else if i == 1 {
    } else {
    }
  }

  lemma FieldBelow(r: bv16, i: bv16, j: bv16, v: bv16)
    requires j < i < 4
    ensures Get(Put(r, 0xF, 4 * i, v), 0xF, 4 * j) == Get(r, 0xF, 4 * j)
  {
  }

  /** A value of four bits stays in its field, and only such a value is read back. */
  lemma NarrowValue(r: bv16, i: bv16, j: bv16, v: bv16)
    requires i < 4 && j < 4
    ensures v < 16 ==> Spilt(r, i, j, v) == if i == j then v else Get(r, 0xF, 4 * j)
    ensures Spilt(r, i, i, v) == v <==> v < 16
  {
  }

  lemma OneBitField(r: bv16, i: bv16, j: bv16, v: bv16)
    requires i < 16 && j < 16 && v < 2
    ensures Get(Put(r, 1, i, v), 1, j) == if i == j then v else Get(r, 1, j)
  {
  }

  // ---- Registers and what they say ----

  /** LOLIM, HILIM or OFFST: one register a slot. */
  type Bank = b: seq<bv16> | |b| == 16 witness [0, 0, 0, 0, 0, 0, 0, 0, 0, 0, 0, 0, 0, 0, 0, 0]

  function Position(i: bv16): (n: nat)
    requires i < 16
    ensures n < 16
  {
    i as int
  }

  lemma PositionsDiffer(i: bv16, j: bv16)
    requires i < 16 && j < 16 && i != j
    ensures Position(i) != Position(j)
  {
    assert (i as int) as bv16 == i && (j as int) as bv16 == j;
  }

  datatype Controls = Controls(ctrl1: bv16, ctrl2: bv16)
  datatype Crossings = Crossings(zxctrl1: bv16, zxctrl2: bv16)
  datatype Lists = Lists(clist1: bv16, clist2: bv16, clist3: bv16, clist4: bv16)
  datatype Gains = Gains(gc1: bv16, gc2: bv16)

  function CrossingOf(r: Crossings, i: bv16): bv16
    requires i < 16
  {
    if i < 8 then Get(r.zxctrl1, 3, 2 * i) else Get(r.zxctrl2, 3, 2 * (i - 8))
  }

  function ChannelOf(r: Lists, i: bv16): bv16
    requires i < 16
  {
    if i < 4 then Get(r.clist1, 0xF, 4 * i)
    else if i < 8 then Get(r.clist2, 0xF, 4 * (i - 4))
    else if i < 12 then Get(r.clist3, 0xF, 4 * (i - 8))
    else Get(r.clist4, 0xF, 4 * (i - 12))
  }

  /** What slot j says once a channel number of any width was written to slot index. */
  function ChannelAfter(r: Lists, index: bv16, channel: bv16, j: bv16): bv16
    requires index < 16 && j < 16
  {
    if index < 4 && j < 4 then Spilt(r.clist1, index, j, channel)
    else if 4 <= index < 8 && 4 <= j < 8 then Spilt(r.clist2, index - 4, j - 4, channel)
    else if 8 <= index < 12 && 8 <= j < 12 then Spilt(r.clist3, index - 8, j - 8, channel)
    else if 12 <= index && 12 <= j then Spilt(r.clist4, index - 12, j - 12, channel)
    else ChannelOf(r, j)
  }

  /** Channel numbers of four bits land in their slot alone, and only they are read back. */
  lemma NarrowChannel(r: Lists, index: bv16, channel: bv16, j: bv16)
    requires index < 16 && j < 16
    ensures channel < 16 ==> ChannelAfter(r, index, channel, j) == if j == index then channel else ChannelOf(r, j)
    ensures ChannelAfter(r, index, channel, index) == channel <==> channel < 16
  {
    hide Get, Spilt;
    if index < 4 {
      NarrowValue(r.clist1, index, if j < 4 then j else index, channel);
    } else if index < 8 {
      NarrowValue(r.clist2, index - 4, if 4 <= j < 8 then j - 4 else index - 4, channel);
    } else if index < 12 {
      NarrowValue(r.clist3, index - 8, if 8 <= j < 12 then j - 8 else index - 8, channel);
    } else {
      NarrowValue(r.clist4, index - 12, if 12 <= j then j - 12 else index - 12, channel);
    }
  }

  predicate SyncOf(sctrl: bv16, i: bv16)
    requires i < 16
  {
    Get(sctrl, 1, i) == 1
  }

  function GainOf(r: Gains, c: bv16): bv16
    requires c < 16
  {
    if c < 8 then Get(r.gc1, 3, 2 * c) else Get(r.gc2, 3, 2 * (c - 8))
  }

  /** The mask table of the channel pairs. */
  function PairMask(p: bv16): bv16
    requires p < 8
  {
    if p == 0 then 0x0010
    else if p == 1 then 0x0020
    else if p == 2 then 0x0080
    else if p == 3 then 0x0100
    else if p == 4 then 0x0040
    else if p == 5 then 0x0080
    else if p == 6 then 0x0200
    else 0x0400
  }

  /** Pairs of the low channels of either converter sit in CTRL1, the others in CTRL2. */
  predicate InFirst(p: bv16) { p < 2 || (4 <= p && p < 6) }

  /** Where the registers keep pair p: bits 4 to 7 of CTRL1 hold pairs 0, 1, 4 and 5, bits 7 to 10 of
      CTRL2 pairs 2, 3, 6 and 7. */
  predicate DifferentialOf(r: Controls, p: bv16)
    requires p < 8
  {
    var k := (p & 1) + 2 * (p >> 2);
    if p & 2 == 0 then Get(r.ctrl1, 1, 4 + k) == 1 else Get(r.ctrl2, 1, 7 + k) == 1
  }

  /** The mask table selects that bit. */
  lemma MaskIsPairBit(r: Controls, p: bv16)
    requires p < 8
    ensures DifferentialOf(r, p) <==> HasBits(if InFirst(p) then r.ctrl1 else r.ctrl2, PairMask(p))
  {
    if p == 0 {
    } else if p == 1 {
    } else if p == 2 {
    } else if p == 3 {
    } else if p == 4 {
    } else if p == 5 {
    } else if p == 6 {
    } else {
    }
  }

  /** All pair bits of CTRL1 or of CTRL2. */
  function PairBits(first: bool): bv16 { if first then 0x00F0 else 0x0780 }

  /** The control bits that belong to no pair. */
  function OtherControl(r: Controls): Controls {
    Controls(ClearBits(r.ctrl1, PairBits(true)), ClearBits(r.ctrl2, PairBits(false)))
  }

  lemma MasksDisjoint(p: bv16, q: bv16)
    requires p < 8 && q < 8 && InFirst(p) == InFirst(q)
    ensures if p == q then PairMask(p) != 0 else Apart(PairMask(p), PairMask(q))
    ensures Inside(PairMask(p), PairBits(InFirst(p)))
  {
  }

  lemma ChannelPair(channel: bv16)
    requires channel < 16
    ensures channel / 2 < 8
    ensures InFirst(channel / 2) <==> channel < 4 || (channel >= 8 && channel < 12)
  {
  }

  // ---- The layout of the packed registers ----

  /** Two registers, the first one low. */
  function Wide(low: bv16, high: bv16): bv32 { (low as bv32) | ((high as bv32) << 16) }

  lemma WideLow(low: bv16, high: bv16, i: bv16)
    requires i < 8
    ensures (Wide(low, high) >> ((2 * i) as bv5)) & 3 == Get(low, 3, 2 * i) as bv32
  {
  }

  lemma WideHigh(low: bv16, high: bv16, i: bv16)
    requires 8 <= i < 16
    ensures (Wide(low, high) >> ((2 * i) as bv5)) & 3 == Get(high, 3, 2 * (i - 8)) as bv32
  {
  }

  /** Zero-crossing modes and gains lie in order, two bits each, through both of their registers. */
  lemma TwoBitLayout(zx: Crossings, gc: Gains, i: bv16)
    requires i < 16
    ensures CrossingOf(zx, i) as bv32 == (Wide(zx.zxctrl1, zx.zxctrl2) >> ((2 * i) as bv5)) & 3
    ensures GainOf(gc, i) as bv32 == (Wide(gc.gc1, gc.gc2) >> ((2 * i) as bv5)) & 3
  {
    hide Get, Wide;
    if i < 8 {
      WideLow(zx.zxctrl1, zx.zxctrl2, i);
      WideLow(gc.gc1, gc.gc2, i);
    } else {
      WideHigh(zx.zxctrl1, zx.zxctrl2, i);
      WideHigh(gc.gc1, gc.gc2, i);
    }
  }

  /** Channel numbers lie in order, four bits each and four to a register. */
  lemma FourBitLayout(r: Lists, i: bv16)
    requires i < 16
    ensures var list := if i >> 2 == 0 then r.clist1 else if i >> 2 == 1 then r.clist2
                        else if i >> 2 == 2 then r.clist3 else r.clist4;
      ChannelOf(r, i) == Get(list, 0xF, (i & 3) << 2)
  {
    hide Get;
  }

  datatype Mode = SingleEnded | FullyDifferential
  datatype Gain = X1 | X2 | X4
  datatype ZeroCrossing = Disabled | PositiveToNegative | NegativeToPositive | AnySign

  datatype Config = Config(
    channel: bv16, mode: Mode, gain: Gain, zeroCrossing: ZeroCrossing,
    highLimit: bv16, lowLimit: bv16, offset: bv16, waitSync: bool)

  /** The code is the binary logarithm of the factor. */
  function GainBits(g: Gain): (b: bv16)
    ensures b < 4
    ensures 1 << (b as bv4) == Factor(g)
  {
    match g case X1 => 0 case X2 => 1 case X4 => 2
  }

  function Factor(g: Gain): bv16 {
    match g case X1 => 1 case X2 => 2 case X4 => 4
  }

  /** Bit 0 selects changes to a negative sign, bit 1 changes to a positive one. */
  function CrossingBits(z: ZeroCrossing): (b: bv16)
    ensures b < 4
    ensures b & 1 == 1 <==> z == PositiveToNegative || z == AnySign
    ensures b & 2 == 2 <==> z == NegativeToPositive || z == AnySign
  {
    match z case Disabled => 0 case PositiveToNegative => 1 case NegativeToPositive => 2 case AnySign => 3
  }

  /** What one slot is set to. */
  datatype Slot = Slot(channel: bv16, crossing: bv16, low: bv16, high: bv16, offset: bv16, sync: bool)

  function SlotFor(c: Config): Slot {
    Slot(c.channel, CrossingBits(c.zeroCrossing), c.lowLimit, c.highLimit, c.offset, c.waitSync)
  }

  // ---- The driver, register by register ----

  class Adc {
    var ctrl: Controls
    var zxctrl: Crossings
    var clist: Lists
    var gc: Gains
    var sctrl: bv16
    var lolim: Bank
    var hilim: Bank
    var offst: Bank

    function SlotOf(i: bv16): Slot
      requires i < 16
      reads this
    {
      Slot(ChannelOf(clist, i), CrossingOf(zxctrl, i), lolim[Position(i)], hilim[Position(i)], offst[Position(i)],
           SyncOf(sctrl, i))
    }

    /** The pair of the channel takes the mode; a channel past fifteen has no pair. */
    method SetDifferential(channel: bv16, mode: Mode)
      modifies this`ctrl
      ensures OtherControl(ctrl) == OtherControl(old(ctrl))
      ensures forall p: bv16 | p < 8 ::
        DifferentialOf(ctrl, p) ==
        if channel < 16 && p == channel / 2 then mode == FullyDifferential else DifferentialOf(old(ctrl), p)
    {
      hide PairMask, SetBits, ClearBits, HasBits, DifferentialOf;
      ghost var was := ctrl;
      if channel < 4 || (channel >= 8 && channel < 12) {
        ChannelPair(channel);
        var mask := PairMask(channel / 2);
        match mode
        case SingleEnded => ctrl := ctrl.(ctrl1 := ClearBits(ctrl.ctrl1, mask));
        case FullyDifferential => ctrl := ctrl.(ctrl1 := SetBits(ctrl.ctrl1, mask));
      } else if (channel >= 4 && channel < 8) || (channel >= 12 && channel < 16) {
        ChannelPair(channel);
        var mask := PairMask(channel / 2);
        match mode
        case SingleEnded => ctrl := ctrl.(ctrl2 := ClearBits(ctrl.ctrl2, mask));
        case FullyDifferential => ctrl := ctrl.(ctrl2 := SetBits(ctrl.ctrl2, mask));
      }
      if channel < 16 {
        PairChanged(was, ctrl, channel / 2, mode);
      }
    }

    /** Both this and the next method move the index into its register and back. */
    method SetZeroCrossing(index: bv16, z: ZeroCrossing) returns (sampleIndex: bv16)
      requires index < 16
      modifies this`zxctrl
      ensures sampleIndex == index
      ensures forall j: bv16 | j < 16 ::
        CrossingOf(zxctrl, j) == if j == index then CrossingBits(z) else CrossingOf(old(zxctrl), j)
    {
      hide Get, Put, CrossingBits;
      ghost var was := zxctrl;
      sampleIndex := index;
      if sampleIndex < 8 {
        zxctrl := zxctrl.(zxctrl1 := Put(zxctrl.zxctrl1, 3, 2 * sampleIndex, CrossingBits(z)));
      } else {
        sampleIndex := sampleIndex - 8;
        zxctrl := zxctrl.(zxctrl2 := Put(zxctrl.zxctrl2, 3, 2 * sampleIndex, CrossingBits(z)));
        sampleIndex := sampleIndex + 8;
      }
      forall j: bv16 | j < 16
        ensures CrossingOf(zxctrl, j) == if j == index then CrossingBits(z) else CrossingOf(was, j)
      {
        if index < 8 && j < 8 {
          TwoBitField(was.zxctrl1, index, j, CrossingBits(z));
        } else if index >= 8 && j >= 8 {
          TwoBitField(was.zxctrl2, index - 8, j - 8, CrossingBits(z));
        }
      }
    }

    /** Bits of the channel number past the fourth land in later slots of the same register. */
    method SetChannel(index: bv16, channel: bv16) returns (sampleIndex: bv16)
      requires index < 16
      modifies this`clist
      ensures sampleIndex == index
      ensures forall j: bv16 | j < 16 :: ChannelOf(clist, j) == ChannelAfter(old(clist), index, channel, j)
    {
      hide Get, Put;
      ghost var was := clist;
      sampleIndex := index;
      if sampleIndex < 4 {
        clist := clist.(clist1 := Put(clist.clist1, 0xF, 4 * sampleIndex, channel));
      } else if sampleIndex < 8 {
        sampleIndex := sampleIndex - 4;
        clist := clist.(clist2 := Put(clist.clist2, 0xF, 4 * sampleIndex, channel));
        sampleIndex := sampleIndex + 4;
      } else if sampleIndex < 12 {
        sampleIndex := sampleIndex - 8;
        clist := clist.(clist3 := Put(clist.clist3, 0xF, 4 * sampleIndex, channel));
        sampleIndex := sampleIndex + 8;
      } else {
        sampleIndex := sampleIndex - 12;
        clist := clist.(clist4 := Put(clist.clist4, 0xF, 4 * sampleIndex, channel));
        sampleIndex := sampleIndex + 12;
      }
      forall j: bv16 | j < 16 ensures ChannelOf(clist, j) == ChannelAfter(was, index, channel, j) {
        SlotInList(was, clist, index, j, channel);
      }
    }

    method SetGain(channel: bv16, gain: Gain)
      modifies this`gc
      ensures forall c: bv16 | c < 16 ::
        GainOf(gc, c) == if c == channel then GainBits(gain) else GainOf(old(gc), c)
    {
      hide Get, Put, GainBits;
      ghost var was := gc;
      if channel < 8 {
        gc := gc.(gc1 := Put(gc.gc1, 3, 2 * channel, GainBits(gain)));
      } else if channel < 16 {
        gc := gc.(gc2 := Put(gc.gc2, 3, 2 * (channel - 8), GainBits(gain)));
      }
      forall c: bv16 | c < 16 ensures GainOf(gc, c) == if c == channel then GainBits(gain) else GainOf(was, c) {
        if channel < 8 && c < 8 {
          TwoBitField(was.gc1, channel, c, GainBits(gain));
        } else if 8 <= channel < 16 && c >= 8 {
          TwoBitField(was.gc2, channel - 8, c - 8, GainBits(gain));
        }
      }
    }

    method SetSync(index: bv16, sync: bool)
      requires index < 16
      modifies this`sctrl
      ensures forall j: bv16 | j < 16 :: SyncOf(sctrl, j) == if j == index then sync else SyncOf(old(sctrl), j)
    {
      hide Get, Put, SetBits, ClearBits, Bit;
      ghost var was := sctrl;
      SyncSetIsField(sctrl, index);
      SyncClearIsField(sctrl, index);
      if sync {
        sctrl := SetBits(sctrl, Bit(index));
      } else {
        sctrl := ClearBits(sctrl, Bit(index));
      }
      forall j: bv16 | j < 16 ensures SyncOf(sctrl, j) == if j == index then sync else SyncOf(was, j) {
        OneBitField(was, index, j, if sync then 1 else 0);
      }
    }

    /** The register writes, for a channel number of any width. */
    method WriteSampleConfig(sampleIndex: bv16, config: Config)
      requires sampleIndex < 16
      modifies this
      ensures forall j: bv16 | j < 16 ::
        SlotOf(j) == (if j == sampleIndex then SlotFor(config) else old(SlotOf(j)))
                     .(channel := ChannelAfter(old(clist), sampleIndex, config.channel, j))
      ensures forall c: bv16 | c < 16 ::
        GainOf(gc, c) == if c == config.channel then GainBits(config.gain) else GainOf(old(gc), c)
      ensures forall p: bv16 | p < 8 ::
        DifferentialOf(ctrl, p) ==
        if config.channel < 16 && p == config.channel / 2 then config.mode == FullyDifferential
        else DifferentialOf(old(ctrl), p)
      ensures OtherControl(ctrl) == OtherControl(old(ctrl))
    {
      hide Get, Put, PairMask, CrossingBits, GainBits, ChannelOf, CrossingOf, SyncOf, GainOf,
        DifferentialOf, Position, ChannelAfter;
      SetDifferential(config.channel, config.mode);
      var index := SetZeroCrossing(sampleIndex, config.zeroCrossing);
      index := SetChannel(index, config.channel);
      lolim := lolim[Position(index) := config.lowLimit];
      hilim := hilim[Position(index) := config.highLimit];
      offst := offst[Position(index) := config.offset];
      SetGain(config.channel, config.gain);
      SetSync(index, config.waitSync);
      forall j: bv16 | j < 16
        ensures SlotOf(j) == (if j == sampleIndex then SlotFor(config) else old(SlotOf(j)))
                             .(channel := ChannelAfter(old(clist), sampleIndex, config.channel, j))
      {
        if j != sampleIndex {
          PositionsDiffer(j, sampleIndex);
        }
      }
    }

    /** The whole call: slot, channel gain and pair take the configuration, everything else stays.  A
        channel number past the documented fifteen is never read back. */
    method SetSampleConfig(sampleIndex: bv16, config: Config)
      requires sampleIndex < 16
      modifies this
      ensures config.channel < 16 ==> forall j: bv16 | j < 16 ::
        SlotOf(j) == if j == sampleIndex then SlotFor(config) else old(SlotOf(j))
      ensures SlotOf(sampleIndex) == SlotFor(config) <==> config.channel < 16
      ensures forall c: bv16 | c < 16 ::
        GainOf(gc, c) == if c == config.channel then GainBits(config.gain) else GainOf(old(gc), c)
      ensures forall p: bv16 | p < 8 ::
        DifferentialOf(ctrl, p) ==
        if config.channel < 16 && p == config.channel / 2 then config.mode == FullyDifferential
        else DifferentialOf(old(ctrl), p)
      ensures OtherControl(ctrl) == OtherControl(old(ctrl))
    {
      hide GainOf, DifferentialOf, Position, ChannelAfter, ChannelOf;
      ghost var was := clist;
      WriteSampleConfig(sampleIndex, config);
      forall j: bv16 | j < 16
        ensures config.channel < 16 ==> SlotOf(j) == if j == sampleIndex then SlotFor(config) else old(SlotOf(j))
      {
        NarrowChannel(was, sampleIndex, config.channel, j);
      }
      NarrowChannel(was, sampleIndex, config.channel, sampleIndex);
    }

    /** Any sequence of calls leaves every slot, gain and pair at its last setting, or untouched. */
    method ConfigureAll(calls: seq<Call>)
      requires forall k | 0 <= k < |calls| :: calls[k].index < 16 && calls[k].config.channel < 16
      modifies this
      ensures forall j: bv16 | j < 16 :: SlotOf(j) == LastSlot(calls, j, old(SlotOf(j)))
      ensures forall c: bv16 | c < 16 :: GainOf(gc, c) == LastGain(calls, c, GainOf(old(gc), c))
      ensures forall p: bv16 | p < 8 :: DifferentialOf(ctrl, p) == LastMode(calls, p, DifferentialOf(old(ctrl), p))
      ensures OtherControl(ctrl) == OtherControl(old(ctrl))
    {
      hide Get, Put, PairMask, CrossingBits, GainBits, ChannelOf, CrossingOf, SyncOf, GainOf,
        DifferentialOf, Position, SlotOf;
      var k := 0;
      while k < |calls|
        invariant k <= |calls|
        invariant forall j: bv16 | j < 16 :: SlotOf(j) == LastSlot(calls[..k], j, old(SlotOf(j)))
        invariant forall c: bv16 | c < 16 :: GainOf(gc, c) == LastGain(calls[..k], c, GainOf(old(gc), c))
        invariant forall p: bv16 | p < 8 ::
          DifferentialOf(ctrl, p) == LastMode(calls[..k], p, DifferentialOf(old(ctrl), p))
        invariant OtherControl(ctrl) == OtherControl(old(ctrl))
      {
        assert calls[..k + 1][..k] == calls[..k];
        SetSampleConfig(calls[k].index, calls[k].config);
        k := k + 1;
      }
      assert calls[..k] == calls;
    }
  }

  /** A control register with the bit of a pair set or cleared. */
  function PairWritten(x: bv16, pair: bv16, mode: Mode): bv16
    requires pair < 8
  {
    if mode == FullyDifferential then SetBits(x, PairMask(pair)) else ClearBits(x, PairMask(pair))
  }

  lemma PairChanged(r: Controls, r': Controls, pair: bv16, mode: Mode)
    requires pair < 8
    requires r'.ctrl1 == if InFirst(pair) then PairWritten(r.ctrl1, pair, mode) else r.ctrl1
    requires r'.ctrl2 == if InFirst(pair) then r.ctrl2 else PairWritten(r.ctrl2, pair, mode)
    ensures OtherControl(r') == OtherControl(r)
    ensures forall p: bv16 | p < 8 ::
      DifferentialOf(r', p) == if p == pair then mode == FullyDifferential else DifferentialOf(r, p)
  {
    hide PairMask, SetBits, ClearBits, HasBits, PairBits, Apart, Inside, InFirst, DifferentialOf;
    var x, m := if InFirst(pair) then r.ctrl1 else r.ctrl2, PairMask(pair);
    MasksDisjoint(pair, pair);
    SetInside(x, m, PairBits(InFirst(pair)));
    ClearInside(x, m, PairBits(InFirst(pair)));
    SetHere(x, m);
    ClearHere(x, m);
    forall p: bv16 | p < 8
      ensures DifferentialOf(r', p) == if p == pair then mode == FullyDifferential else DifferentialOf(r, p)
    {
      MaskIsPairBit(r, p);
      MaskIsPairBit(r', p);
      if p != pair && InFirst(p) == InFirst(pair) {
        MasksDisjoint(pair, p);
        SetElsewhere(x, m, PairMask(p));
        ClearElsewhere(x, m, PairMask(p));
      }
    }
  }

  lemma SlotInList(r: Lists, r': Lists, index: bv16, j: bv16, channel: bv16)
    requires index < 16 && j < 16
    requires r'.clist1 == if index < 4 then Put(r.clist1, 0xF, 4 * index, channel) else r.clist1
    requires r'.clist2 == if 4 <= index < 8 then Put(r.clist2, 0xF, 4 * (index - 4), channel) else r.clist2
    requires r'.clist3 == if 8 <= index < 12 then Put(r.clist3, 0xF, 4 * (index - 8), channel) else r.clist3
    requires r'.clist4 == if 12 <= index then Put(r.clist4, 0xF, 4 * (index - 12), channel) else r.clist4
    ensures ChannelOf(r', j) == ChannelAfter(r, index, channel, j)
  {
    hide Get, Put, Spilt;
    if index < 4 && j < 4 {
      FourBitField(r.clist1, index, j, channel);
    } else if 4 <= index < 8 && 4 <= j < 8 {
      FourBitField(r.clist2, index - 4, j - 4, channel);
    } else if 8 <= index < 12 && 8 <= j < 12 {
      FourBitField(r.clist3, index - 8, j - 8, channel);
    } else if 12 <= index && 12 <= j {
      FourBitField(r.clist4, index - 12, j - 12, channel);
    }
  }

  lemma SyncSetIsField(r: bv16, i: bv16)
    requires i < 16
    ensures SetBits(r, Bit(i)) == Put(r, 1, i, 1)
  {
  }

  lemma SyncClearIsField(r: bv16, i: bv16)
    requires i < 16
    ensures ClearBits(r, Bit(i)) == Put(r, 1, i, 0)
  {
    assert (0 as bv16) << (i as bv4) == 0;
  }

  // ---- Last settings ----

  datatype Call = Call(index: bv16, config: Config)

  ghost function LastSlot(calls: seq<Call>, i: bv16, initially: Slot): Slot {
    if calls == [] then initially else
      var n := |calls| - 1;
      if calls[n].index == i then SlotFor(calls[n].config) else LastSlot(calls[..n], i, initially)
  }

  ghost function LastGain(calls: seq<Call>, c: bv16, initially: bv16): bv16 {
    if calls == [] then initially else
      var n := |calls| - 1;
      if calls[n].config.channel == c then GainBits(calls[n].config.gain) else LastGain(calls[..n], c, initially)
  }

  ghost function LastMode(calls: seq<Call>, p: bv16, initially: bool): bool {
    if calls == [] then initially else
      var n := |calls| - 1;
      if calls[n].config.channel / 2 == p then calls[n].config.mode == FullyDifferential
      else LastMode(calls[..n], p, initially)
  }
}
