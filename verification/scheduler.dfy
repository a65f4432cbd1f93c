/**
 * The time-of-day scheduler of plug_tracker.py: a list of active windows,
 * the membership test `is_active`, and `seconds_until_next_active`.
 *
 * Times of day are counted in microseconds since midnight, the resolution of
 * Python's `datetime.time`; waits are returned in whole seconds, truncated
 * as `int()` truncates the positive `total_seconds()` value.
 */
module Scheduling {
  const MicrosPerSecond := 1_000_000
  const SecondsPerDay := 86_400
  const DayMicros := SecondsPerDay * MicrosPerSecond

  /** A time of day, in microseconds since midnight. */
  type TimeOfDay = t: int | 0 <= t < DayMicros

  /** An active window; `start > end` means it wraps past midnight. */
  datatype Window = Window(start: TimeOfDay, end: TimeOfDay)

  /** `Scheduler(active_windows)`; it never changes after construction. */
  datatype Scheduler = Scheduler(windows: seq<Window>)
  {
    /** `always_active`: set exactly when no window was given. */
    predicate AlwaysActive() {
      |windows| == 0
    }
  }

  /** Whether one window contains t: inclusive bounds, or the two arcs of a wrapping window. */
  predicate Covers(w: Window, t: TimeOfDay) {
    if w.start <= w.end then w.start <= t <= w.end
    else t >= w.start || t <= w.end
  }

  /** Whether some window of ws contains t. */
  predicate SomeCovers(ws: seq<Window>, t: TimeOfDay) {
    exists i :: 0 <= i < |ws| && Covers(ws[i], t)
  }

  /** The meaning of `is_active`. */
  predicate Active(s: Scheduler, t: TimeOfDay) {
    s.AlwaysActive() || SomeCovers(s.windows, t)
  }

  /** `Scheduler.is_active`, plug_tracker.py:111-123: a search with early return. */
  method IsActive(s: Scheduler, t: TimeOfDay) returns (active: bool)
    ensures active <==> Active(s, t)
  {
    if s.AlwaysActive() {
      return true;
    }
    for i := 0 to |s.windows|
      invariant forall j :: 0 <= j < i ==> !Covers(s.windows[j], t)
    {
      var w := s.windows[i];
      if w.start <= w.end {
        if w.start <= t <= w.end {
          return true;
        }
      } else {
        if t >= w.start || t <= w.end {
          return true;
        }
      }
    }
    return false;
  }

  /** Every window contains its own start, so a schedule is active at each window start. */
  lemma ActiveAtStart(s: Scheduler, i: nat)
    requires i < |s.windows|
    ensures Active(s, s.windows[i].start)
  {
    assert Covers(s.windows[i], s.windows[i].start);
  }

  /** The answer of `is_active` does not depend on the order of the windows. */
  lemma ActiveOrderIndependent(ws: seq<Window>, vs: seq<Window>, t: TimeOfDay)
    requires multiset(ws) == multiset(vs)
    ensures Active(Scheduler(ws), t) <==> Active(Scheduler(vs), t)
  {
    CoversCarried(ws, vs, t);
    CoversCarried(vs, ws, t);
  }

  /** A covering window of ws reappears somewhere in any rearrangement vs. */
  lemma CoversCarried(ws: seq<Window>, vs: seq<Window>, t: TimeOfDay)
    requires multiset(ws) == multiset(vs)
    ensures SomeCovers(ws, t) ==> SomeCovers(vs, t)
  {
    if SomeCovers(ws, t) {
      var i :| 0 <= i < |ws| && Covers(ws[i], t);
      assert ws[i] in multiset(vs);
      var j :| 0 <= j < |vs| && vs[j] == ws[i];
      assert Covers(vs[j], t);
    }
  }

  /**
   * The forward distance from t to the next occurrence of start, in
   * microseconds: later today when start is strictly later, else tomorrow.
   */
  function Until(t: TimeOfDay, start: TimeOfDay): (d: int)
    ensures 0 < d <= DayMicros
    ensures (t + d) % DayMicros == start
  {
    if start > t then start - t else start - t + DayMicros
  }

  /** No smaller positive distance from t reaches start. */
  lemma UntilLeast(t: TimeOfDay, start: TimeOfDay, d: int)
    requires 0 < d && (t + d) % DayMicros == start
    ensures Until(t, start) <= d
  {
    var q := (t + d) / DayMicros;
    assert t + d == q * DayMicros + start;
    if start > t {
      assert q >= 0;
    } else {
      assert q >= 1;
    }
  }

  /** The earliest window start after t, as a distance: a minimum over all windows. */
  function EarliestWait(ws: seq<Window>, t: TimeOfDay): (m: int)
    requires |ws| > 0
    ensures forall i :: 0 <= i < |ws| ==> m <= Until(t, ws[i].start)
    ensures exists i :: 0 <= i < |ws| && m == Until(t, ws[i].start)
  {
    var last := Until(t, ws[|ws| - 1].start);
    if |ws| == 1 then last
    else
      var rest := EarliestWait(ws[..|ws| - 1], t);
      assert forall i :: 0 <= i < |ws| - 1 ==> ws[..|ws| - 1][i] == ws[i];
      if last < rest then last else rest
  }

  /** The meaning of `seconds_until_next_active`: 0 when always active, else the earliest wait in whole seconds. */
  function SecondsUntil(s: Scheduler, now: TimeOfDay): (r: int)
    ensures 0 <= r <= SecondsPerDay
    ensures !s.AlwaysActive() ==> r * MicrosPerSecond <= EarliestWait(s.windows, now) < (r + 1) * MicrosPerSecond
  {
    if s.AlwaysActive() then 0 else EarliestWait(s.windows, now) / MicrosPerSecond
  }

  /**
   * `Scheduler.seconds_until_next_active`, plug_tracker.py:125-154. The loop
   * keeps the least wait seen so far; `found` stands in for the
   * `float('inf')` start value.
   */
  method SecondsUntilNextActive(s: Scheduler, now: TimeOfDay) returns (secs: int)
    ensures secs == SecondsUntil(s, now)
  {
    if s.AlwaysActive() {
      return 0;
    }
    var minWait := 0;
    var found := false;
    for i := 0 to |s.windows|
      invariant found <==> i > 0
      invariant found ==> minWait == EarliestWait(s.windows[..i], now)
    {
      var start := s.windows[i].start;
      var wait;
      if start > now {
        wait := start - now;
      } else {
        wait := start - now + DayMicros;
      }
      assert s.windows[..i + 1][..i] == s.windows[..i];
      if !found || wait < minWait {
        minWait := wait;
        found := true;
      }
    }
    assert s.windows[..|s.windows|] == s.windows;
    secs := if found then minWait / MicrosPerSecond else 0;
  }

  /** A time that falls on a whole second. */
  predicate WholeSecond(t: TimeOfDay) {
    t % MicrosPerSecond == 0
  }

  /** With whole-second times, the wait is exact and lies in [1, 86400]. */
  lemma WholeSecondWait(s: Scheduler, now: TimeOfDay)
    requires !s.AlwaysActive() && WholeSecond(now)
    requires forall i :: 0 <= i < |s.windows| ==> WholeSecond(s.windows[i].start)
    ensures SecondsUntil(s, now) * MicrosPerSecond == EarliestWait(s.windows, now)
    ensures 1 <= SecondsUntil(s, now) <= SecondsPerDay
  {
    var i :| 0 <= i < |s.windows| && EarliestWait(s.windows, now) == Until(now, s.windows[i].start);
    WholeSecondDistance(now, s.windows[i].start);
  }

  /** The distance between two whole-second times is a whole number of seconds. */
  lemma WholeSecondDistance(t: TimeOfDay, start: TimeOfDay)
    requires WholeSecond(t) && WholeSecond(start)
    ensures Until(t, start) % MicrosPerSecond == 0
  {
    var a := t / MicrosPerSecond;
    var b := start / MicrosPerSecond;
    assert t == a * MicrosPerSecond;
    assert start == b * MicrosPerSecond;
    if start > t {
      assert Until(t, start) == (b - a) * MicrosPerSecond;
    } else {
      assert Until(t, start) == (b - a + SecondsPerDay) * MicrosPerSecond;
    }
  }

  /** The time of day d microseconds after t. */
  function Later(t: TimeOfDay, d: int): TimeOfDay {
    (t + d) % DayMicros
  }

  /**
   * Sleeping the computed wait from a whole-second time lands on some
   * window's start, where the schedule is active.
   */
  lemma WakeAtWindowStart(s: Scheduler, now: TimeOfDay)
    requires !s.AlwaysActive() && WholeSecond(now)
    requires forall i :: 0 <= i < |s.windows| ==> WholeSecond(s.windows[i].start)
    ensures exists i :: 0 <= i < |s.windows| && Later(now, SecondsUntil(s, now) * MicrosPerSecond) == s.windows[i].start
    ensures Active(s, Later(now, SecondsUntil(s, now) * MicrosPerSecond))
  {
    WholeSecondWait(s, now);
    var w := EarliestWait(s.windows, now);
    var i :| 0 <= i < |s.windows| && w == Until(now, s.windows[i].start);
    assert Later(now, w) == s.windows[i].start;
    ActiveAtStart(s, i);
  }

  /** Before the computed wait has passed, no window start is reached. */
  lemma NoStartSkipped(s: Scheduler, now: TimeOfDay, d: int)
    requires !s.AlwaysActive() && 0 < d < EarliestWait(s.windows, now)
    ensures forall i :: 0 <= i < |s.windows| ==> Later(now, d) != s.windows[i].start
  {
    forall i | 0 <= i < |s.windows| ensures Later(now, d) != s.windows[i].start {
      if Later(now, d) == s.windows[i].start {
        UntilLeast(now, s.windows[i].start, d);
      }
    }
  }

  /** Hours and minutes as a time of day. */
  function HourMinute(h: int, m: int): TimeOfDay
    requires 0 <= h < 24 && 0 <= m < 60
  {
    (h * 3600 + m * 60) * MicrosPerSecond
  }

  /** The windows 08:00-10:00 and 20:00-22:00 of plug_tracker_test.py. */
  function Morning(): Window {
    Window(HourMinute(8, 0), HourMinute(10, 0))
  }

  function Evening(): Window {
    Window(HourMinute(20, 0), HourMinute(22, 0))
  }

  /** The `is_active` cases of plug_tracker_test.py:16-39. */
  lemma ActiveExamples()
    ensures Active(Scheduler([]), HourMinute(12, 0))
    ensures Active(Scheduler([Morning()]), HourMinute(8, 0))
    ensures Active(Scheduler([Morning()]), HourMinute(9, 0))
    ensures Active(Scheduler([Morning()]), HourMinute(10, 0))
    ensures !Active(Scheduler([Morning()]), HourMinute(7, 59))
    ensures !Active(Scheduler([Morning()]), HourMinute(10, 1))
    ensures Active(Scheduler([Morning(), Evening()]), HourMinute(9, 0))
    ensures Active(Scheduler([Morning(), Evening()]), HourMinute(21, 0))
    ensures !Active(Scheduler([Morning(), Evening()]), HourMinute(12, 0))
  {
    assert Covers([Morning()][0], HourMinute(8, 0));
    assert Covers([Morning()][0], HourMinute(9, 0));
    assert Covers([Morning()][0], HourMinute(10, 0));
    assert Covers([Morning(), Evening()][0], HourMinute(9, 0));
    assert Covers([Morning(), Evening()][1], HourMinute(21, 0));
  }

  /** The `seconds_until_next_active` cases of plug_tracker_test.py:41-67. */
  lemma WaitExamples()
    ensures SecondsUntil(Scheduler([Morning()]), HourMinute(7, 0)) == 3600
    ensures SecondsUntil(Scheduler([Morning()]), HourMinute(12, 0)) == 72000
    ensures SecondsUntil(Scheduler([Morning(), Evening()]), HourMinute(12, 0)) == 28800
  {
  }
}
