/**
 * The intraday time index of `download_clean_update` (source lines 51-71).
 *
 * A date is its day number as `date.toordinal()` gives it (0001-01-01 is day
 * 1), and a timestamp is a count of minutes in the one fixed UTC-5 offset the
 * source builds its datetimes in, so that `day * MinutesPerDay + m` is minute
 * `m` of `day`. For every calendar day in `[start, end)` the source emits
 * 09:30, 09:30 plus one increment, ... while the time is strictly before
 * 16:00. There is no trading-calendar check: weekends and holidays get slots
 * too. A `time += increment` that leaves the years 1 to 9999 raises
 * OverflowError.
 */
module TimeGrid {
  import opened Wrappers
  import opened Seqs
  import Arith

  type Day = int
  type Timestamp = int

  const MinutesPerDay: int := 24 * 60
  const OpenMinute: int := 9 * 60 + 30
  const CloseMinute: int := 16 * 60
  /** Length of the session in minutes: 390. */
  const SessionMinutes: int := CloseMinute - OpenMinute

  /** The day numbers of `date.min` (0001-01-01) and `date.max` (9999-12-31). */
  const MinDay: int := 1
  const MaxDay: int := 3652059

  /** A day a Python `date` can hold. */
  predicate ValidDay(day: Day) {
    MinDay <= day <= MaxDay
  }

  /** A whole minute a Python `datetime` can hold: one on a valid day. */
  predicate InDatetimeRange(t: Timestamp) {
    MinDay * MinutesPerDay <= t < (MaxDay + 1) * MinutesPerDay
  }

  /** The exception of `time += increment` (line 67). */
  datatype Overflow = OverflowError

  function DayOpen(day: Day): Timestamp {
    day * MinutesPerDay + OpenMinute
  }

  function DayClose(day: Day): Timestamp {
    day * MinutesPerDay + CloseMinute
  }

  function DayOf(t: Timestamp): Day {
    t / MinutesPerDay
  }

  function MinuteOfDay(t: Timestamp): int {
    t % MinutesPerDay
  }

  /** `t` is a slot of the session grid: in [09:30, 16:00) and a whole number of increments after 09:30. */
  predicate OnGrid(t: Timestamp, increment: int)
    requires increment > 0
  {
    OpenMinute <= MinuteOfDay(t) < CloseMinute && (MinuteOfDay(t) - OpenMinute) % increment == 0
  }

  /** The inner loop (lines 65-67): `time`, `time + increment`, ... while below `stop`. */
  function SlotsFrom(time: Timestamp, stop: Timestamp, increment: int): (r: seq<Timestamp>)
    requires increment > 0
    ensures forall t :: t in r ==> time <= t < stop
    decreases stop - time
  {
    if time < stop then [time] + SlotsFrom(time + increment, stop, increment) else []
  }

  /** The slots of one calendar day. */
  function DaySlots(day: Day, increment: int): (r: seq<Timestamp>)
    requires increment > 0
    ensures forall t :: t in r ==> DayOpen(day) <= t < DayClose(day)
  {
    SlotsFrom(DayOpen(day), DayClose(day), increment)
  }

  /**
   * The whole index (lines 56-69): the slots of `start`, then of `start + 1`,
   * ..., up to and excluding `end`, when every step stays in range. With a
   * day to fill, the source loops forever on a zero increment and overflows
   * on a negative one (TimeIndexResult), hence the precondition.
   */
  function TimeIndex(start: Day, end: Day, increment: int): (r: seq<Timestamp>)
    requires start < end ==> increment > 0
    ensures forall t :: t in r ==> start * MinutesPerDay <= t < end * MinutesPerDay
    decreases end - start
  {
    if start < end then TimeIndex(start, end - 1, increment) + DaySlots(end - 1, increment) else []
  }

  /** The number of slots per day, ceil(390 / increment). */
  function SlotCount(increment: int): int
    requires increment > 0
  {
    (SessionMinutes + increment - 1) / increment
  }

  /**
   * The last `time += increment` of a day, which reaches or passes 16:00,
   * leaves the range of `datetime`. The step is largest on the last day.
   */
  predicate DayOverflows(day: Day, increment: int)
    requires increment > 0
  {
    !InDatetimeRange(DayOpen(day) + SlotCount(increment) * increment)
  }

  /**
   * The outcome of lines 56-69: the index, or OverflowError. A negative
   * increment walks back from 09:30 until it falls below year 1; a positive
   * one overflows when the last day's final step passes year 9999.
   */
  function TimeIndexResult(start: Day, end: Day, increment: int): Result<seq<Timestamp>, Overflow>
    requires start < end ==> increment != 0
  {
    if end <= start then Ok([])
    else if increment < 0 || DayOverflows(end - 1, increment) then Err(OverflowError)
    else Ok(TimeIndex(start, end, increment))
  }

  /** The outer loop of lines 62-69, appending to `index` as the source appends to `time_index`. */
  method BuildTimeIndex(start: Day, end: Day, increment: int) returns (result: Result<seq<Timestamp>, Overflow>)
    requires ValidDay(start) && ValidDay(end)
    requires start < end ==> increment != 0
    ensures result == TimeIndexResult(start, end, increment)
  {
    var index := [];
    var day := start;
    while day < end
      invariant day == start || start < day <= end
      invariant day == start ==> index == []
      invariant increment > 0 ==> index == TimeIndex(start, day, increment)
      invariant day > start ==> increment > 0 && !DayOverflows(day - 1, increment)
      decreases end - day
    {
      var extended := AppendDaySlots(index, day, increment);
      if extended.Err? {
        if increment > 0 {
          LaterDayOverflows(day, end - 1, increment);
        }
        return Err(OverflowError);
      }
      index := extended.value;
      day := day + 1;
    }
    result := Ok(index);
  }

  /** The inner loop of lines 63-67: one day's slots appended to `index`, or the OverflowError of a step. */
  method AppendDaySlots(index: seq<Timestamp>, day: Day, increment: int)
    returns (result: Result<seq<Timestamp>, Overflow>)
    requires ValidDay(day) && increment != 0
    ensures increment < 0 ==> result == Err(OverflowError)
    ensures increment > 0 ==>
      result == if DayOverflows(day, increment) then Err(OverflowError) else Ok(index + DaySlots(day, increment))
  {
    var slots := index;
    var time := DayOpen(day);
    var endTime := DayClose(day);
    if increment > 0 {
      DaySlotsShape(day, increment);
    }
    while time < endTime
      invariant InDatetimeRange(time)
      invariant increment > 0 ==>
        && DayOpen(day) <= time
        && slots + SlotsFrom(time, endTime, increment) == index + DaySlots(day, increment)
        && time == DayOpen(day) + (|slots| - |index|) * increment
      invariant increment < 0 ==> time <= DayOpen(day)
      decreases if increment > 0 then endTime - time else time - MinDay * MinutesPerDay
    {
      ghost var k := |slots| - |index|;
      slots := slots + [time];
      if !InDatetimeRange(time + increment) {
        if increment > 0 {
          LastStepOverflows(day, day + 1, increment, k);
        }
        return Err(OverflowError);
      }
      time := time + increment;
    }
    if increment > 0 {
      assert slots == index + DaySlots(day, increment);
      assert time == DayOpen(day) + SlotCount(increment) * increment;
    }
    result := Ok(slots);
  }

  /** The final step of a later day is at least as far out. */
  lemma LaterDayOverflows(day: Day, later: Day, increment: int)
    requires increment > 0 && ValidDay(day) && day <= later && DayOverflows(day, increment)
    ensures DayOverflows(later, increment)
  {
  }

  /** A step of day `day` that leaves the range shows that the last day's final step does. */
  lemma LastStepOverflows(day: Day, end: Day, increment: int, k: int)
    requires increment > 0 && day < end && 0 <= k < SlotCount(increment)
    requires !InDatetimeRange(DayOpen(day) + (k + 1) * increment)
    requires MinDay * MinutesPerDay <= DayOpen(day)
    ensures DayOverflows(end - 1, increment)
  {
    Arith.MulStep(increment, k, SlotCount(increment));
    assert (k + 1) * increment == increment * k + increment;
  }

  /**
   * A negative increment always overflows; an increment of at most a day
   * never does, so "5m" and "15m" always give the index; one of more than
   * the whole `datetime` range overflows on the first day.
   */
  lemma TimeIndexOutcome(start: Day, end: Day, increment: int)
    requires ValidDay(start) && ValidDay(end) && start < end && increment != 0
    ensures increment < 0 ==> TimeIndexResult(start, end, increment) == Err(OverflowError)
    ensures 0 < increment <= MinutesPerDay ==> TimeIndexResult(start, end, increment) == Ok(TimeIndex(start, end, increment))
    ensures increment >= (MaxDay + 1) * MinutesPerDay ==> TimeIndexResult(start, end, increment) == Err(OverflowError)
  {
    if increment > 0 {
      var c := SlotCount(increment);
      var x := SessionMinutes + increment - 1;
      assert x == increment * c + x % increment;
      if increment <= MinutesPerDay {
        assert c * increment <= x;
      } else {
        assert c >= 1;
        Arith.MulAtLeast(increment, c);
      }
    }
  }

  // ---------------------------------------------------------------------------
  // One day

  /** Slot k is k increments after the first, and the slots fall short of `stop` by less than one increment. */
  lemma {:induction false} SlotsFromShape(time: Timestamp, stop: Timestamp, increment: int)
    requires increment > 0
    ensures var s := SlotsFrom(time, stop, increment);
      && (forall k :: 0 <= k < |s| ==> s[k] == time + k * increment)
      && (time < stop ==> (|s| - 1) * increment < stop - time <= |s| * increment)
      && (time >= stop ==> s == [])
    decreases stop - time
  {
    var s := SlotsFrom(time, stop, increment);
    if time < stop {
      var rest := SlotsFrom(time + increment, stop, increment);
      SlotsFromShape(time + increment, stop, increment);
      assert s == [time] + rest;
      forall k | 0 < k < |s| ensures s[k] == time + k * increment {
        assert s[k] == rest[k - 1];
        assert (k - 1) * increment + increment == k * increment;
      }
      if time + increment < stop {
        assert (|rest| - 1) * increment + increment == (|s| - 1) * increment;
        assert |rest| * increment + increment == |s| * increment;
      }
    }
  }

  /** A timestamp is among the slots exactly when it lies in [time, stop) a whole number of increments after `time`. */
  lemma {:induction false} SlotsFromMembers(time: Timestamp, stop: Timestamp, increment: int, t: Timestamp)
    requires increment > 0
    ensures t in SlotsFrom(time, stop, increment) <==> time <= t < stop && (t - time) % increment == 0
    decreases stop - time
  {
    if time < stop {
      SlotsFromMembers(time + increment, stop, increment, t);
      Arith.ModShift(t - time, increment);
      if time < t < time + increment {
        Arith.DivModUnique(t - time, increment, 0, t - time);
      } else if t == time {
        Arith.DivModUnique(0, increment, 0, 0);
      }
    }
  }

  lemma {:induction false} SlotsFromIncreasing(time: Timestamp, stop: Timestamp, increment: int)
    requires increment > 0
    ensures StrictlyIncreasing(SlotsFrom(time, stop, increment))
    ensures forall x :: x in SlotsFrom(time, stop, increment) ==> time <= x < stop
    decreases stop - time
  {
    if time < stop {
      SlotsFromIncreasing(time + increment, stop, increment);
      var rest := SlotsFrom(time + increment, stop, increment);
      assert SlotsFrom(time, stop, increment) == [time] + rest;
      assert forall j :: 0 <= j < |rest| ==> rest[j] in rest;
    }
  }

  /**
   * Each day's slots start at 09:30, step by exactly the increment, stay
   * before 16:00, and number ceil(390 / increment).
   */
  lemma DaySlotsShape(day: Day, increment: int)
    requires increment > 0
    ensures var s := DaySlots(day, increment);
      && |s| == SlotCount(increment)
      && s[0] == DayOpen(day)
      && (forall k :: 0 <= k < |s| ==> s[k] == DayOpen(day) + k * increment)
      && (forall k :: 0 < k < |s| ==> s[k] == s[k - 1] + increment)
      && (forall k :: 0 <= k < |s| ==> DayOpen(day) <= s[k] < DayClose(day))
  {
    var s := DaySlots(day, increment);
    SlotsFromShape(DayOpen(day), DayClose(day), increment);
    SlotsFromIncreasing(DayOpen(day), DayClose(day), increment);
    Arith.CeilingDiv(SessionMinutes, increment, |s|);
    assert s[0] == DayOpen(day) + 0 * increment;
    forall k | 0 < k < |s| ensures s[k] == s[k - 1] + increment {
      assert (k - 1) * increment + increment == k * increment;
    }
    forall k | 0 <= k < |s| ensures DayOpen(day) <= s[k] < DayClose(day) {
      assert s[k] in s;
    }
  }

  /** The default "5m" interval gives 78 slots per calendar day. */
  lemma FiveMinuteDay(day: Day)
    ensures |DaySlots(day, 5)| == 78
  {
    DaySlotsShape(day, 5);
  }

  // ---------------------------------------------------------------------------
  // The whole range

  /** The index has one day's worth of slots per calendar day in [start, end), and none when start >= end. */
  lemma {:induction false} TimeIndexLength(start: Day, end: Day, increment: int)
    requires increment > 0
    ensures |TimeIndex(start, end, increment)| == if start < end then (end - start) * SlotCount(increment) else 0
    decreases end - start
  {
    if start < end {
      TimeIndexLength(start, end - 1, increment);
      DaySlotsShape(end - 1, increment);
      assert (end - 1 - start) * SlotCount(increment) + SlotCount(increment)
          == (end - start) * SlotCount(increment);
    }
  }

  /** The index splits at any day in between: the days come in calendar order. */
  lemma {:induction false} TimeIndexSplit(start: Day, mid: Day, end: Day, increment: int)
    requires increment > 0 && start <= mid <= end
    ensures TimeIndex(start, end, increment) == TimeIndex(start, mid, increment) + TimeIndex(mid, end, increment)
    decreases end - mid
  {
    if mid < end {
      TimeIndexSplit(start, mid, end - 1, increment);
      assert TimeIndex(mid, end, increment) == TimeIndex(mid, end - 1, increment) + DaySlots(end - 1, increment);
    }
  }

  /** Hence every day in [start, end) contributes its slots, sitting between the earlier and the later days. */
  lemma DayInIndex(start: Day, day: Day, end: Day, increment: int)
    requires increment > 0 && start <= day < end
    ensures TimeIndex(start, end, increment)
         == TimeIndex(start, day, increment) + DaySlots(day, increment) + TimeIndex(day + 1, end, increment)
  {
    TimeIndexSplit(start, day, end, increment);
    TimeIndexSplit(day, day + 1, end, increment);
    assert TimeIndex(day, day + 1, increment) == TimeIndex(day, day, increment) + DaySlots(day, increment);
  }

  /** The index is strictly increasing, so it holds no timestamp twice. */
  lemma {:induction false} TimeIndexIncreasing(start: Day, end: Day, increment: int)
    requires increment > 0
    ensures StrictlyIncreasing(TimeIndex(start, end, increment))
    decreases end - start
  {
    if start < end {
      var a := TimeIndex(start, end - 1, increment);
      var b := DaySlots(end - 1, increment);
      TimeIndexIncreasing(start, end - 1, increment);
      SlotsFromIncreasing(DayOpen(end - 1), DayClose(end - 1), increment);
      var s := a + b;
      forall i, j | 0 <= i < j < |s| ensures s[i] < s[j] {
        if j >= |a| && i < |a| {
          assert s[i] in a;
          assert s[j] in b;
        }
      }
    }
  }

  /**
   * A timestamp is in the index exactly when its day is in [start, end) and it
   * is a grid slot of the session: no instant outside [09:30, 16:00) is ever emitted.
   */
  lemma {:induction false} TimeIndexMembers(start: Day, end: Day, increment: int, t: Timestamp)
    requires increment > 0
    ensures t in TimeIndex(start, end, increment) <==> start <= DayOf(t) < end && OnGrid(t, increment)
    decreases end - start
  {
    if start < end {
      TimeIndexMembers(start, end - 1, increment, t);
      var d := end - 1;
      SlotsFromMembers(DayOpen(d), DayClose(d), increment, t);
      if DayOpen(d) <= t < DayClose(d) {
        Arith.DivModUnique(t, MinutesPerDay, d, t - d * MinutesPerDay);
      } else if DayOf(t) == d {
        Arith.DivModUnique(t, MinutesPerDay, DayOf(t), MinuteOfDay(t));
      }
    }
  }
}
