/** The BBNSM real-time clock: a 47-bit counter at 32768 Hz read through two registers while it
    moves, and the two-bit enable fields (drivers/bbnsm/fsl_bbnsm.c:87-237,
    drivers/bbnsm/fsl_bbnsm.h:252-287). */
module BbnsmRtc {

  const LOW_RANGE: nat := 0x1_0000_0000
  const SECOND: nat := 0x8000
  const COUNTER_LIMIT: nat := 0x8000_0000_0000
  const SECONDS_LIMIT: nat := 0x1_0000_0000

  // ---- What the registers show ----

  function UpperRegister(ticks: nat): nat { ticks / LOW_RANGE }
  function LowerRegister(ticks: nat): nat { ticks % LOW_RANGE }
  function Seconds(ticks: nat): nat { ticks / SECOND }

  /** (MS << 17) | (LS >> 15): the two parts share no bit. */
  function Assemble(ms: nat, ls: nat): nat {
    (ms * 0x2_0000) % SECONDS_LIMIT + ls / SECOND
  }

  lemma AssembleAtOnce(ticks: nat)
    requires ticks < COUNTER_LIMIT
    ensures Assemble(UpperRegister(ticks), LowerRegister(ticks)) == Seconds(ticks) < SECONDS_LIMIT
  {
    var ms, ls := UpperRegister(ticks), LowerRegister(ticks);
    assert ticks == ms * LOW_RANGE + ls && ms < SECOND;
    assert (ms * 0x2_0000) % SECONDS_LIMIT == ms * 0x2_0000;
    assert ticks / SECOND == ms * 0x2_0000 + ls / SECOND;
  }

  /** Equal assembled values come from equal upper parts. */
  lemma SameUpper(ms: nat, ls: nat, ms': nat, ls': nat)
    requires ms < SECOND && ms' < SECOND && ls < LOW_RANGE && ls' < LOW_RANGE
    requires Assemble(ms, ls) == Assemble(ms', ls')
    ensures ms == ms'
  {
    assert ls / SECOND < 0x2_0000 && ls' / SECOND < 0x2_0000;
    assert (ms * 0x2_0000) % SECONDS_LIMIT == ms * 0x2_0000;
    assert (ms' * 0x2_0000) % SECONDS_LIMIT == ms' * 0x2_0000;
  }

  // ---- Every interleaving of the reads with the clock ----

  /** The counter at the successive register reads of a call, upper then lower in turn. */
  ghost predicate Schedule(ts: seq<nat>) {
    && |ts| % 2 == 0
    && (forall i | 0 <= i < |ts| :: ts[i] < COUNTER_LIMIT)
    && (forall i, j | 0 <= i <= j < |ts| :: ts[i] <= ts[j])
  }

  /** The k-th assembled reading; the one before the first is the initial zero. */
  ghost function Reading(ts: seq<nat>, k: int): nat
    requires Schedule(ts) && -1 <= k < |ts| / 2
  {
    if k == -1 then 0 else Assemble(UpperRegister(ts[2 * k]), LowerRegister(ts[2 * k + 1]))
  }

  /** The loop has read without two equal readings in a row. */
  ghost predicate Unsettled(ts: seq<nat>) {
    Schedule(ts) && forall k | 0 <= k < |ts| / 2 :: Reading(ts, k) != Reading(ts, k - 1)
  }

  /** A finished call that returned r. */
  ghost predicate IsRun(ts: seq<nat>, r: nat) {
    && |ts| >= 2 && Schedule(ts) && Unsettled(ts[..|ts| - 2])
    && r == Reading(ts, |ts| / 2 - 1) == Reading(ts, |ts| / 2 - 2)
  }

  /** r was the time in seconds when one of the registers was read. */
  ghost predicate TrueInstant(ts: seq<nat>, r: nat) {
    exists j | 0 <= j < |ts| :: r == Seconds(ts[j])
  }

  lemma TwoReadingsAreTrue(ts: seq<nat>, r: nat)
    requires IsRun(ts, r) && |ts| >= 4
    ensures TrueInstant(ts, r)
  {
    var k := |ts| / 2 - 2;
    var a, b, c, d := ts[2 * k], ts[2 * k + 1], ts[2 * k + 2], ts[2 * k + 3];
    UpperBound(a);
    UpperBound(c);
    SameUpper(UpperRegister(a), LowerRegister(b), UpperRegister(c), LowerRegister(d));
    UpperMonotone(a, b);
    UpperMonotone(b, c);
    AssembleAtOnce(b);
    assert r == Seconds(ts[2 * k + 1]);
  }

  lemma UpperBound(t: nat)
    requires t < COUNTER_LIMIT
    ensures UpperRegister(t) < SECOND
  {
  }

  lemma UpperMonotone(a: nat, b: nat)
    requires a <= b
    ensures UpperRegister(a) <= UpperRegister(b)
  {
  }

  /** A nonzero result is the true time at an instant inside the call. */
  lemma NonzeroIsTrue(ts: seq<nat>, r: nat)
    requires IsRun(ts, r) && r != 0
    ensures TrueInstant(ts, r)
  {
    assert |ts| >= 4;
    TwoReadingsAreTrue(ts, r);
  }

  /** Starting from the counter value c, every run returns a true time exactly when c lies in the
      first second or past the range of the lower register. */
  lemma SnapshotExact(c: nat)
    requires c < COUNTER_LIMIT
    ensures (forall ts: seq<nat>, r: nat :: IsRun(ts, r) && ts[0] == c ==> TrueInstant(ts, r))
      <==> c < SECOND || c >= LOW_RANGE
  {
    if c < SECOND || c >= LOW_RANGE {
      forall ts: seq<nat>, r: nat | IsRun(ts, r) && ts[0] == c ensures TrueInstant(ts, r) {
        SettledStart(ts, r);
      }
    } else {
      TornZero(c);
    }
  }

  lemma SettledStart(ts: seq<nat>, r: nat)
    requires IsRun(ts, r) && (ts[0] < SECOND || ts[0] >= LOW_RANGE)
    ensures TrueInstant(ts, r)
  {
    if |ts| >= 4 {
      TwoReadingsAreTrue(ts, r);
    } else {
      assert r == Reading(ts, -1) == 0;
      assert Reading(ts, 0) == Assemble(UpperRegister(ts[0]), LowerRegister(ts[1]));
      UpperBound(ts[0]);
      ZeroReading(UpperRegister(ts[0]), LowerRegister(ts[1]));
      assert Seconds(ts[0]) == 0;
    }
  }

  lemma ZeroReading(ms: nat, ls: nat)
    requires ms < SECOND && Assemble(ms, ls) == 0
    ensures ms == 0
  {
    assert (ms * 0x2_0000) % SECONDS_LIMIT == ms * 0x2_0000;
  }

  /** A result is never ahead of the clock, and past the lower register's range never behind it. */
  lemma ResultBounds(ts: seq<nat>, r: nat)
    requires IsRun(ts, r)
    ensures |ts| >= 2 && r <= Seconds(ts[|ts| - 1])
    ensures ts[0] >= LOW_RANGE ==> Seconds(ts[0]) <= r
  {
    if r != 0 || ts[0] >= LOW_RANGE {
      if r != 0 {
        NonzeroIsTrue(ts, r);
      } else {
        SettledStart(ts, r);
      }
      var j :| 0 <= j < |ts| && r == Seconds(ts[j]);
      SecondsMonotone(ts[0], ts[j]);
      SecondsMonotone(ts[j], ts[|ts| - 1]);
    }
  }

  lemma SecondsMonotone(a: nat, b: nat)
    requires a <= b
    ensures Seconds(a) <= Seconds(b)
  {
  }

  /** The clock rolls into the next upper value between the two reads of the first reading. */
  lemma TornZero(c: nat)
    requires SECOND <= c < LOW_RANGE
    ensures IsRun([c, LOW_RANGE], 0) && !TrueInstant([c, LOW_RANGE], 0)
  {
    var ts := [c, LOW_RANGE];
    assert Schedule(ts) && ts[..0] == [];
    assert Reading(ts, 0) == Assemble(0, 0) == 0;
  }

  /** An alarm that is due when the call begins is refused in every run exactly when it is due at zero or
      the counter is past the lower register's range; otherwise the torn zero lets it through. */
  lemma PassedAlarmExact(alarmSeconds: nat, c: nat)
    requires c < COUNTER_LIMIT && alarmSeconds <= Seconds(c)
    ensures (forall ts: seq<nat>, r: nat :: IsRun(ts, r) && ts[0] == c ==> alarmSeconds <= r)
      <==> alarmSeconds == 0 || c >= LOW_RANGE
  {
    hide Schedule, Unsettled, Reading;
    if alarmSeconds == 0 || c >= LOW_RANGE {
      forall ts: seq<nat>, r: nat | IsRun(ts, r) && ts[0] == c ensures alarmSeconds <= r {
        ResultBounds(ts, r);
      }
    } else {
      TornZero(c);
      var ts := [c, LOW_RANGE];
      assert IsRun(ts, 0) && ts[0] == c;
    }
  }

  // ---- The driver ----

  datatype Control = Control(rtcEn: bv2, taEn: bv2, calVal: nat, calEn: bool)

  datatype Status = Success | Fail

  class Rtc {
    var ticks: nat
    var ctrl: Control
    var taIntEn: bv2
    var alarm: nat
    /** How many more times the counter moves between reads: any number, as any finished run has one. */
    var moves: nat

    /** The counter fits its registers and no enable field holds the invalid value 0b11. */
    ghost predicate Valid()
      reads this
    {
      ticks < COUNTER_LIMIT && ctrl.rtcEn != 3 && ctrl.taEn != 3 && taIntEn != 3
    }

    ghost predicate Running()
      reads this
    {
      ctrl.rtcEn == 2
    }

    /** Time passes before a register access, only forward and only while the timer runs. */
    method Elapse()
      requires Valid()
      modifies this`ticks, this`moves
      ensures Valid() && old(ticks) <= ticks && moves <= old(moves)
      ensures ticks == old(ticks) || (Running() && moves < old(moves))
    {
      if ctrl.rtcEn == 2 && moves > 0 {
        var t: nat :| ticks <= t < COUNTER_LIMIT;
        ticks, moves := t, moves - 1;
      }
    }

    /** One pass of the loop: the upper register at the counter value first, then the lower one. */
    method ReadOnce() returns (reading: nat, ghost first: nat)
      requires Valid()
      modifies this`ticks, this`moves
      ensures Valid() && old(ticks) <= first <= ticks && moves <= old(moves)
      ensures reading == Assemble(UpperRegister(first), LowerRegister(ticks)) < SECONDS_LIMIT
      ensures ticks == old(ticks) ==> reading == Seconds(ticks)
      ensures ticks != old(ticks) ==> Running() && moves < old(moves)
    {
      Elapse();
      first := ticks;
      var ms := UpperRegister(ticks);
      Elapse();
      var ls := LowerRegister(ticks);
      reading := Assemble(ms, ls);
      AssembleAtOnce(ticks);
      AssembleBound(first, ticks);
    }

    method GetSeconds() returns (seconds: nat, ghost ts: seq<nat>)
      requires Valid()
      modifies this`ticks, this`moves
      ensures Valid() && IsRun(ts, seconds) && seconds < SECONDS_LIMIT
      ensures old(ticks) <= ts[0] && ts[|ts| - 1] == ticks && old(ticks) <= ticks
      ensures !Running() ==> seconds == Seconds(old(ticks)) && ticks == old(ticks)
    {
      hide Assemble, Reading, UpperRegister, LowerRegister, Seconds, Schedule, Unsettled;
      seconds := 0;
      var tmp := 0;
      ts := [];
      NothingRead();
      while true
        invariant Valid() && Schedule(ts) && Unsettled(ts) && tmp == Reading(ts, |ts| / 2 - 1) < SECONDS_LIMIT
        invariant old(ticks) <= ticks && (ts != [] ==> old(ticks) <= ts[0])
        invariant forall i | 0 <= i < |ts| :: ts[i] <= ticks
        invariant !Running() ==> ticks == old(ticks) && (ts == [] || tmp == Seconds(ticks))
        decreases moves, if tmp == Seconds(ticks) then 0 else 1
      {
        seconds := tmp;
        ghost var first;
        tmp, first := ReadOnce();
        NextReading(ts, first, ticks);
        if tmp == seconds {
          ts := ts + [first, ticks];
          break;
        }
        StillUnsettled(ts, first, ticks);
        ts := ts + [first, ticks];
      }
    }

    method StartTimer()
      modifies this`ctrl
      ensures ctrl == old(ctrl).(rtcEn := 2)
    {
      var tmp := ctrl;
      if tmp.rtcEn & 1 != 0 {
        tmp := tmp.(rtcEn := tmp.rtcEn & !3);
      }
      ctrl := tmp.(rtcEn := tmp.rtcEn | 2);
    }

    method StopTimer()
      modifies this`ctrl
      ensures ctrl == old(ctrl).(rtcEn := 1)
    {
      var tmp := ctrl;
      if tmp.rtcEn & 2 != 0 {
        tmp := tmp.(rtcEn := tmp.rtcEn & !3);
      }
      ctrl := tmp.(rtcEn := tmp.rtcEn | 1);
    }

    method Init(calEnable: bool, calValue: nat)
      requires Valid()
      modifies this`ctrl
      ensures Valid() && Running()
      ensures !calEnable ==> ctrl == old(ctrl).(rtcEn := 2)
      ensures calEnable ==> ctrl == Control(2, 0, calValue, true)
    {
      if calEnable {
        ctrl := Control(0, 0, calValue, false);
        ctrl := ctrl.(calEn := true);
      }
      StartTimer();
    }

    method Deinit()
      requires Valid()
      modifies this`ctrl
      ensures Valid() && !Running()
      ensures ctrl == old(ctrl).(rtcEn := if old(ctrl.rtcEn) == 1 then 1 else 0)
    {
      ctrl := ctrl.(rtcEn := ctrl.rtcEn & !2);
    }

    /** Setting the time keeps a running timer running and a stopped one stopped. */
    method SetSeconds(seconds: nat)
      requires Valid() && seconds < SECONDS_LIMIT
      modifies this`ctrl, this`ticks
      ensures Valid() && Seconds(ticks) == seconds && ticks % SECOND == 0
      ensures ctrl == old(ctrl).(rtcEn := if old(Running()) then 2 else 1)
    {
      var tmp := ctrl;
      StopTimer();
      ticks := (seconds / 0x2_0000) * LOW_RANGE + LowerRegister(ticks);
      ticks := UpperRegister(ticks) * LOW_RANGE + (seconds * SECOND) % LOW_RANGE;
      SplitSeconds(seconds);
      if tmp.rtcEn & 2 != 0 {
        StartTimer();
      }
    }

    method SetAlarm(alarmSeconds: nat) returns (status: Status, ghost now: nat, ghost ts: seq<nat>)
      requires Valid()
      modifies this
      ensures Valid() && old(ticks) <= ticks
      ensures IsRun(ts, now) && old(ticks) <= ts[0] && ts[|ts| - 1] == ticks
      ensures status == Success <==> alarmSeconds > now
      ensures status == Success ==> alarm == alarmSeconds > 0 && taIntEn == 2 && ctrl == old(ctrl).(taEn := 2)
      ensures status == Fail ==> alarm == old(alarm) && taIntEn == old(taIntEn) && ctrl == old(ctrl)
      ensures !old(Running()) ==> ticks == old(ticks) && (status == Success <==> alarmSeconds > Seconds(ticks))
      ensures status == Fail ==> alarmSeconds <= Seconds(ticks)
      ensures status == Success && old(ticks) >= LOW_RANGE ==> alarmSeconds > Seconds(old(ticks))
    {
      hide Seconds, IsRun;
      var currSeconds;
      currSeconds, ts := GetSeconds();
      now := currSeconds;
      ResultBounds(ts, now);
      SecondsMonotone(old(ticks), ts[0]);
      status := Success;
      if alarmSeconds <= currSeconds {
        status := Fail;
        return;
      }
      var tmp := taIntEn & !3;
      taIntEn := tmp | 1;
      alarm := alarmSeconds;
      tmp := taIntEn & !3;
      taIntEn := tmp | 2;
      var control := ctrl.(taEn := ctrl.taEn & !3);
      ctrl := control.(taEn := control.taEn | 2);
    }

    /** With the clock stopped, a time written is the time read back. */
    method SetThenGet(seconds: nat) returns (read: nat)
      requires Valid() && seconds < SECONDS_LIMIT && !Running()
      modifies this
      ensures Valid() && read == seconds
    {
      SetSeconds(seconds);
      ghost var ts;
      read, ts := GetSeconds();
    }

    method PerformOne(c: Call)
      requires Valid() && (c.SetTime? ==> c.seconds < SECONDS_LIMIT)
      modifies this
      ensures Valid() && Running() == RunsAfterOne(c, old(Running()))
    {
      hide Seconds;
      match c {
        case Initialise(calEnable, calValue) => Init(calEnable, calValue);
        case Start => StartTimer();
        case Stop => StopTimer();
        case SetTime(seconds) => SetSeconds(seconds);
        case Alarm(seconds) => var _, _, _ := SetAlarm(seconds);
        case Shutdown => Deinit();
      }
    }

    /** Any run of the calls keeps the fields valid, and the timer runs exactly when the last call
        that starts or stops it started it. */
    method Perform(calls: seq<Call>)
      requires Valid() && forall c | c in calls :: c.SetTime? ==> c.seconds < SECONDS_LIMIT
      modifies this
      ensures Valid() && Running() == RunsAfter(calls, old(Running()))
    {
      var i := 0;
      while i < |calls|
        invariant i <= |calls| && Valid()
        invariant Running() == RunsAfter(calls[..i], old(Running()))
      {
        assert calls[..i + 1][..i] == calls[..i] && calls[i] in calls;
        PerformOne(calls[i]);
        i := i + 1;
      }
      assert calls[..i] == calls;
    }
  }

  datatype Call =
    | Initialise(calEnable: bool, calValue: nat)
    | Start
    | Stop
    | SetTime(seconds: nat)
    | Alarm(at: nat)
    | Shutdown

  ghost function RunsAfter(calls: seq<Call>, running: bool): bool {
    if calls == [] then running else
      var n := |calls| - 1;
      RunsAfterOne(calls[n], RunsAfter(calls[..n], running))
  }

  predicate RunsAfterOne(c: Call, running: bool) {
    match c
    case Initialise(_, _) => true
    case Start => true
    case Stop => false
    case Shutdown => false
    case _ => running
  }

  lemma AssembleBound(a: nat, b: nat)
    requires a < COUNTER_LIMIT
    ensures Assemble(UpperRegister(a), LowerRegister(b)) < SECONDS_LIMIT
  {
    var ms := UpperRegister(a);
    UpperBound(a);
    assert (ms * 0x2_0000) % SECONDS_LIMIT == ms * 0x2_0000;
    assert LowerRegister(b) / SECOND < 0x2_0000;
  }

  lemma NothingRead()
    ensures Schedule([]) && Unsettled([]) && Reading([], -1) == 0
  {
  }

  lemma SplitSeconds(seconds: nat)
    requires seconds < SECONDS_LIMIT
    ensures var t := (seconds / 0x2_0000) * LOW_RANGE + (seconds * SECOND) % LOW_RANGE;
      t == seconds * SECOND < COUNTER_LIMIT
  {
    var hi, lo := seconds / 0x2_0000, seconds % 0x2_0000;
    assert seconds * SECOND == hi * LOW_RANGE + lo * SECOND;
    assert (seconds * SECOND) % LOW_RANGE == lo * SECOND;
  }

  /** A further reading leaves the earlier ones as they were. */
  lemma NextReading(ts: seq<nat>, a: nat, b: nat)
    requires Schedule(ts) && a <= b < COUNTER_LIMIT && forall i | 0 <= i < |ts| :: ts[i] <= a
    ensures var ts' := ts + [a, b];
      && Schedule(ts') && ts'[..|ts'| - 2] == ts && |ts'| / 2 == |ts| / 2 + 1
      && Reading(ts', |ts| / 2) == Assemble(UpperRegister(a), LowerRegister(b))
      && forall k | -1 <= k < |ts| / 2 :: Reading(ts', k) == Reading(ts, k)
  {
  }

  lemma StillUnsettled(ts: seq<nat>, a: nat, b: nat)
    requires Unsettled(ts) && a <= b < COUNTER_LIMIT && forall i | 0 <= i < |ts| :: ts[i] <= a
    requires Assemble(UpperRegister(a), LowerRegister(b)) != Reading(ts, |ts| / 2 - 1)
    ensures Unsettled(ts + [a, b])
  {
    NextReading(ts, a, b);
  }
}
