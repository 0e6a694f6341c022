/**
 * The per-record logic of components/ActivityItem.tsx: the elapsed time it
 * shows, the timer commands its two buttons send to the store (toggle, and
 * complete), the `formatTime` clock text, and the urgency window of a moved
 * record. The component reads the clock; here `now` is a parameter.
 */
module ActivityItem {
  import opened Calendar
  import opened Types
  import opened Text
  import Timers
  import Transitions

  /** The arguments of one `onUpdateTimer(id, elapsed, isActive)` call. */
  datatype TimerCommand = TimerCommand(id: string, elapsed: int, isActive: bool)

  /**
   * The elapsed time shown at `now`: the stored total, plus the running
   * session when the timer runs from a (truthy) start instant. It only reads
   * the timer, so showing it never changes `totalElapsed`.
   */
  function DisplayElapsed(t: TimerState, now: int): (shown: int)
    ensures !t.isActive || !Truthy(t.lastStartTime) ==> shown == t.totalElapsed
    ensures t.isActive && Truthy(t.lastStartTime) ==> shown - t.totalElapsed == now - t.lastStartTime.value
  {
    if t.isActive && Truthy(t.lastStartTime) then t.totalElapsed + (now - t.lastStartTime.value)
    else t.totalElapsed
  }

  /** Sampled at later instants, the shown elapsed time never goes down. */
  lemma DisplayElapsedMonotone(t: TimerState, earlier: int, later: int)
    requires earlier <= later
    ensures DisplayElapsed(t, earlier) <= DisplayElapsed(t, later)
  {
  }

  /** `toggleTimer`: a running timer is asked to stop with its session added; a stopped one to start as it is. */
  function ToggleTimer(a: ActivityEntry, now: int): (c: TimerCommand)
    ensures c.id == a.id && c.isActive == !a.timer.isActive
    ensures !a.timer.isActive ==> c.elapsed == a.timer.totalElapsed
    ensures a.timer.isActive && Truthy(a.timer.lastStartTime) ==> c.elapsed == DisplayElapsed(a.timer, now)
  {
    if a.timer.isActive then TimerCommand(a.id, a.timer.totalElapsed + (now - OrZero(a.timer.lastStartTime)), false)
    else TimerCommand(a.id, a.timer.totalElapsed, true)
  }

  /** The timer command of `stopTimer`, the complete button: stop, keeping exactly the elapsed time on display. */
  function StopTimer(a: ActivityEntry, now: int): (c: TimerCommand)
    ensures c.id == a.id && !c.isActive
    ensures c.elapsed == DisplayElapsed(a.timer, now)
  {
    var finalElapsed := a.timer.totalElapsed;
    var session := if a.timer.isActive && Truthy(a.timer.lastStartTime) then now - a.timer.lastStartTime.value else 0;
    TimerCommand(a.id, finalElapsed + session, false)
  }

  /** The store after App.tsx's `handleUpdateTimer` has handled a command. */
  function Send(s: seq<ActivityEntry>, c: TimerCommand, now: int): seq<ActivityEntry>
  {
    Timers.UpdateTimer(s, c.id, c.elapsed, c.isActive, now)
  }

  /** `stopTimer` as a whole: the timer command, then the status change to Completed. */
  function Complete(s: seq<ActivityEntry>, a: ActivityEntry, now: int): seq<ActivityEntry>
  {
    Transitions.UpdateStatus(Send(s, StopTimer(a, now), now), a.id, Completed)
  }

  /**
   * Toggling a stopped record and toggling it again at the same instant
   * leaves it stopped with its elapsed time unchanged; the start has stopped
   * every other timer, so nothing runs afterwards.
   */
  lemma ToggleRoundTrip(s: seq<ActivityEntry>, i: int, now: int)
    requires UniqueIds(s)
    requires 0 <= i < |s| && !s[i].timer.isActive
    ensures var started := Send(s, ToggleTimer(s[i], now), now);
      var stopped := Send(started, ToggleTimer(started[i], now), now);
      && started[i].timer.isActive
      && stopped[i].timer == TimerState(false, None, s[i].timer.totalElapsed)
      && forall j :: 0 <= j < |stopped| ==> !stopped[j].timer.isActive
  {
    var started := Send(s, ToggleTimer(s[i], now), now);
    assert started[i].timer == TimerState(true, Some(now), s[i].timer.totalElapsed);
    var stopped := Send(started, ToggleTimer(started[i], now), now);
    forall j | 0 <= j < |stopped|
      ensures !stopped[j].timer.isActive
    {
      if j != i {
        assert s[j].id != s[i].id;
        assert started[j].id == s[j].id;
      }
    }
  }

  /**
   * Completing a record leaves it Completed and stopped, with the elapsed
   * time that was on display folded into its total; every other record is
   * as it was, and the store invariant still holds.
   */
  lemma CompleteStopsAndCompletes(s: seq<ActivityEntry>, i: int, now: int)
    requires StoreInvariant(s)
    requires 0 <= i < |s|
    ensures var r := Complete(s, s[i], now);
      && |r| == |s|
      && r[i].status == Completed
      && r[i].timer == TimerState(false, None, DisplayElapsed(s[i].timer, now))
      && (forall j :: 0 <= j < |s| && j != i ==> r[j] == s[j])
      && StoreInvariant(r)
  {
    var c := StopTimer(s[i], now);
    var m := Send(s, c, now);
    Timers.UpdateTimerKeepsInvariant(s, c.id, c.elapsed, false, now);
    Transitions.StatusKeepsInvariant(m, s[i].id, Completed);
    var r := Complete(s, s[i], now);
    forall j | 0 <= j < |s| && j != i
      ensures r[j] == s[j]
    {
      assert s[j].id != s[i].id;
    }
  }

  /**
   * The item's two buttons, offered only while the record is not Completed,
   * never leave a Completed record running.
   */
  lemma ControlsKeepCompletedStopped(s: seq<ActivityEntry>, i: int, now: int)
    requires UniqueIds(s) && CompletedStopped(s)
    requires 0 <= i < |s| && s[i].status != Completed
    ensures CompletedStopped(Send(s, ToggleTimer(s[i], now), now))
    ensures CompletedStopped(Complete(s, s[i], now))
  {
    var t := Send(s, ToggleTimer(s[i], now), now);
    forall j | 0 <= j < |s| && t[j].status == Completed
      ensures !t[j].timer.isActive
    {
      if j != i {
        assert s[j].id != s[i].id;
      }
    }
    var m := Send(s, StopTimer(s[i], now), now);
    var c := Complete(s, s[i], now);
    forall j | 0 <= j < |s| && c[j].status == Completed
      ensures !c[j].timer.isActive
    {
      if j != i {
        assert s[j].id != s[i].id;
      }
    }
  }

  /**
   * Whatever a toggle does, the elapsed time shown for every record at the
   * instant of the toggle is the same before and after it: sessions are
   * folded, never lost or counted twice. (Start instants are truthy, as
   * `Date.now()` is.)
   */
  lemma ToggleKeepsShownElapsed(s: seq<ActivityEntry>, i: int, now: int)
    requires StoreInvariant(s)
    requires forall j :: 0 <= j < |s| && s[j].timer.isActive ==> Truthy(s[j].timer.lastStartTime)
    requires 0 <= i < |s|
    ensures var r := Send(s, ToggleTimer(s[i], now), now);
      forall j :: 0 <= j < |s| ==> DisplayElapsed(r[j].timer, now) == DisplayElapsed(s[j].timer, now)
  {
    var r := Send(s, ToggleTimer(s[i], now), now);
    forall j | 0 <= j < |s|
      ensures DisplayElapsed(r[j].timer, now) == DisplayElapsed(s[j].timer, now)
    {
      if j != i {
        assert s[j].id != s[i].id;
      }
    }
  }

  /** The whole seconds of a clock text: `H:MM:SS` or `MM:SS`, read back. */
  function ParseClock(r: string): int
  {
    if |r| < 5 then 0
    else
      var head := r[..|r| - 5];
      (if |head| == 0 then 0 else ParseNat(head[..|head| - 1]) * 3600)
      + ParseNat(r[|r| - 5..|r| - 3]) * 60 + ParseNat(r[|r| - 2..])
  }

  lemma ClockArithmetic(s: int)
    requires s >= 0
    ensures (s / 3600) * 3600 + ((s % 3600) / 60) * 60 + s % 60 == s
    ensures 0 <= (s % 3600) / 60 < 60
  {
    var h, rem := s / 3600, s % 3600;
    var m, sec := rem / 60, rem % 60;
    assert s == 3600 * h + rem && 0 <= rem < 3600;
    assert rem == 60 * m + sec && 0 <= sec < 60;
    assert s == 60 * (60 * h + m) + sec;
    assert s % 60 == sec;
  }

  /**
   * `formatTime`: the minutes `(s % 3600) / 60` and the seconds `s % 60` of
   * `s = floor(ms / 1000)`, each as two digits after a colon, preceded by the
   * hours `s / 3600` and a colon from the first full hour on.
   */
  function FormatTime(ms: int): (r: string)
    ensures ms >= 0 ==> |r| >= 5 && r[|r| - 3] == ':'
    ensures ms >= 0 ==> (|r| == 5 <==> ms < 3600000)
    ensures ms >= 0 ==>
      && AllDigits(r[|r| - 5..|r| - 3]) && ParseNat(r[|r| - 5..|r| - 3]) == (ms / 1000 % 3600) / 60
      && AllDigits(r[|r| - 2..]) && ParseNat(r[|r| - 2..]) == ms / 1000 % 60
    ensures ms >= 0 && |r| > 5 ==>
      && |r| >= 7 && r[|r| - 6] == ':'
      && AllDigits(r[..|r| - 6]) && ParseNat(r[..|r| - 6]) == ms / 1000 / 3600
      && r[0] != '0'
  {
    var totalSeconds := ms / 1000;
    var h := totalSeconds / 3600;
    var m := JsRem(totalSeconds, 3600) / 60;
    var s := JsRem(totalSeconds, 60);
    if ms >= 0 then
      ClockParts(ms);
      ParseNatToString(h);
      Clock(h, m, s)
    else Clock(h, m, s)
  }

  /** The fields of a non-negative duration are in their ranges, and the hours are zero exactly below one hour. */
  lemma ClockParts(ms: int)
    requires ms >= 0
    ensures var s := ms / 1000;
      && s >= 0 && s / 3600 >= 0 && 0 <= (s % 3600) / 60 < 60 && 0 <= s % 60 < 60
      && (s / 3600 == 0 <==> ms < 3600000)
  {
    ClockArithmetic(ms / 1000);
  }

  /** The clock text of hours, minutes and seconds: `H:MM:SS`, or `MM:SS` below one hour. */
  function Clock(h: int, m: int, sec: int): (r: string)
    ensures h >= 0 && 0 <= m < 60 && 0 <= sec < 60 ==>
      && |r| >= 5 && r[|r| - 3] == ':' && (|r| == 5 <==> h == 0)
      && AllDigits(r[|r| - 5..|r| - 3]) && ParseNat(r[|r| - 5..|r| - 3]) == m
      && AllDigits(r[|r| - 2..]) && ParseNat(r[|r| - 2..]) == sec
      && (h > 0 ==> |r| >= 7 && r[|r| - 6] == ':' && r[..|r| - 6] == NatToString(h))
  {
    var prefix := if h > 0 then IntToString(h) + ":" else "";
    var mm, ss := Pad2(m), Pad2(sec);
    if h >= 0 && 0 <= m < 60 && 0 <= sec < 60 then
      ClockSlices(prefix, mm, ss);
      assert h > 0 ==> prefix[..|prefix| - 1] == NatToString(h);
      prefix + mm + ":" + ss
    else prefix + mm + ":" + ss
  }

  /** Where the fields of `prefix MM:SS` sit, counted from the end. */
  lemma ClockSlices(prefix: string, mm: string, ss: string)
    requires |mm| == 2 && |ss| == 2
    ensures var r := prefix + mm + ":" + ss;
      && |r| == |prefix| + 5 && r[|r| - 3] == ':'
      && r[|r| - 5..|r| - 3] == mm && r[|r| - 2..] == ss
      && (|prefix| >= 1 ==> r[|r| - 6] == prefix[|prefix| - 1] && r[..|r| - 6] == prefix[..|prefix| - 1])
  {
    var r := prefix + mm + ":" + ss;
    assert r[|r| - 5..|r| - 3] == mm;
    assert r[|r| - 2..] == ss;
    if |prefix| >= 1 {
      assert r[..|r| - 6] == prefix[..|prefix| - 1];
    }
  }

  /** Reading a clock text back gives the seconds it shows. */
  lemma ClockRoundTrip(h: int, m: int, sec: int)
    requires h >= 0 && 0 <= m < 60 && 0 <= sec < 60
    ensures ParseClock(Clock(h, m, sec)) == h * 3600 + m * 60 + sec
  {
    var r := Clock(h, m, sec);
    if h > 0 {
      var head := r[..|r| - 5];
      assert head[..|head| - 1] == r[..|r| - 6];
      ParseNatToString(h);
    }
  }

  /** Reading the clock text back gives the whole seconds it was made from. */
  lemma FormatTimeRoundTrip(ms: int)
    requires ms >= 0
    ensures ParseClock(FormatTime(ms)) == ms / 1000
  {
    var totalSeconds := ms / 1000;
    ClockArithmetic(totalSeconds);
    assert FormatTime(ms) == Clock(totalSeconds / 3600, (totalSeconds % 3600) / 60, totalSeconds % 60);
    ClockRoundTrip(totalSeconds / 3600, (totalSeconds % 3600) / 60, totalSeconds % 60);
  }

  /** `daysSinceMoved`: whole days since the move, or 0 when the record was never moved. */
  function DaysSinceMoved(a: ActivityEntry, now: int): (days: int)
    ensures !Truthy(a.movedAt) ==> days == 0
    ensures Truthy(a.movedAt) ==> days * MsPerDay <= now - a.movedAt.value < (days + 1) * MsPerDay
  {
    if Truthy(a.movedAt) then (now - a.movedAt.value) / MsPerDay else 0
  }

  /** `isUrgent`: moved, and five or more whole days ago. */
  predicate IsUrgent(a: ActivityEntry, now: int)
  {
    Truthy(a.movedAt) && DaysSinceMoved(a, now) >= 5
  }

  /** `daysRemaining`: what is left of the seven-day window, never below zero; absent for records never moved. */
  function DaysRemaining(a: ActivityEntry, now: int): (left: Option<int>)
    ensures left.Some? <==> Truthy(a.movedAt)
    ensures left.Some? ==> 0 <= left.value
    ensures left.Some? && now >= a.movedAt.value ==> left.value <= 7
    ensures left.Some? ==> (IsUrgent(a, now) <==> left.value <= 2)
    // the window is used up exactly seven full days after the move
    ensures left.Some? ==> (left.value == 0 <==> now - a.movedAt.value >= 7 * MsPerDay)
    // before that, `left` days remain while the elapsed time lies in day `7 - left` since the move
    ensures left.Some? && left.value > 0 ==>
      (7 - left.value) * MsPerDay <= now - a.movedAt.value < (8 - left.value) * MsPerDay
  {
    if Truthy(a.movedAt) then
      var d := DaysSinceMoved(a, now);
      if 7 - d > 0 then
        assert (d + 1) * MsPerDay <= 7 * MsPerDay;
        Some(7 - d)
      else
        assert d * MsPerDay >= 7 * MsPerDay;
        Some(0)
    else None
  }

  /** A moved record is urgent exactly from five full days after the move on, and stays so. */
  lemma UrgentFromFiveDays(a: ActivityEntry, now: int)
    requires Truthy(a.movedAt)
    ensures IsUrgent(a, now) <==> now - a.movedAt.value >= 5 * MsPerDay
  {
    var d := DaysSinceMoved(a, now);
    if d >= 5 {
      assert d * MsPerDay >= 5 * MsPerDay;
    } else {
      assert (d + 1) * MsPerDay <= 5 * MsPerDay;
    }
  }

  /** Right after a move the record has the whole window left and is not urgent. */
  lemma MoveOpensFullWindow(s: seq<ActivityEntry>, id: string, newDate: Day, now: int, i: int)
    requires now != 0
    requires 0 <= i < |s| && s[i].id == id
    ensures var r := Transitions.MoveToDate(s, id, newDate, now);
      && r[i].status == Rescheduled && r[i].movedFromDate == Some(s[i].date)
      && DaysRemaining(r[i], now) == Some(7) && !IsUrgent(r[i], now)
  {
    var r := Transitions.MoveToDate(s, id, newDate, now);
    assert DaysSinceMoved(r[i], now) == 0;
  }
}
