/**
 * The dates a create or an edit is replicated to (`datesToSync` in
 * `handleAddOrEditActivity`): the selected date first, then, unless the mode
 * is `none`, the other days of the selected date's Monday-started week that
 * are weekdays or weekend days as the mode asks, in calendar order.
 */
module Schedule {
  import opened Calendar

  datatype RepeatMode = NoRepeat | Weekdays | Weekends

  /** A day the loop pushes under `mode`: a weekday for `weekdays`, Saturday or Sunday for `weekends`. */
  predicate Wanted(mode: RepeatMode, d: Day)
  {
    (mode == Weekdays && !IsWeekend(d)) || (mode == Weekends && IsWeekend(d))
  }

  /** What the loop has pushed after looking at the first `n` days of the week starting at `monday`. */
  function WeekPicks(monday: Day, n: nat, selected: Day, mode: RepeatMode): seq<Day>
    decreases n
  {
    if n == 0 then []
    else
      var d := monday + n - 1;
      WeekPicks(monday, n - 1, selected, mode) + (if d != selected && Wanted(mode, d) then [d] else [])
  }

  /** The dates to synchronise, as a value. */
  function SyncedDates(selected: Day, mode: RepeatMode): seq<Day>
  {
    [selected] + (if mode == NoRepeat then [] else WeekPicks(StartOfWeek(selected), 7, selected, mode))
  }

  /** The loop of the source, computing the dates to synchronise. */
  method DatesToSync(selected: Day, mode: RepeatMode) returns (dates: seq<Day>)
    ensures dates == SyncedDates(selected, mode)
  {
    dates := [selected];
    if mode != NoRepeat {
      var monday := StartOfWeek(selected);
      var i := 0;
      while i < 7
        invariant 0 <= i <= 7
        invariant dates == [selected] + WeekPicks(monday, i, selected, mode)
      {
        var d := monday + i;
        if d != selected && Wanted(mode, d) {
          dates := dates + [d];
        }
        i := i + 1;
      }
    }
  }

  /** Every pick lies in the first `n` days, is not the selected date, and is wanted by the mode. */
  lemma {:induction false} WeekPicksInRange(monday: Day, n: nat, selected: Day, mode: RepeatMode)
    ensures forall d :: d in WeekPicks(monday, n, selected, mode) ==>
      monday <= d < monday + n && d != selected && Wanted(mode, d)
  {
    if n > 0 {
      WeekPicksInRange(monday, n - 1, selected, mode);
    }
  }

  /** Dates in strictly increasing calendar order. */
  predicate Increasing(p: seq<Day>)
  {
    forall i, j :: 0 <= i < j < |p| ==> p[i] < p[j]
  }

  /** The picks are in increasing calendar order. */
  lemma {:induction false} WeekPicksIncreasing(monday: Day, n: nat, selected: Day, mode: RepeatMode)
    ensures Increasing(WeekPicks(monday, n, selected, mode))
  {
    if n > 0 {
      WeekPicksIncreasing(monday, n - 1, selected, mode);
      WeekPicksInRange(monday, n - 1, selected, mode);
      var q := WeekPicks(monday, n - 1, selected, mode);
      var p := WeekPicks(monday, n, selected, mode);
      var d := monday + n - 1;
      if d != selected && Wanted(mode, d) {
        assert p == q + [d];
        forall i, j | 0 <= i < j < |p|
          ensures p[i] < p[j]
        {
          assert p[i] == q[i] && p[i] in q;
          if j < |q| {
            assert p[j] == q[j];
          } else {
            assert p[j] == d;
          }
        }
      } else {
        assert p == q;
      }
    }
  }

  /** Every wanted day among the first `n`, other than the selected date, is picked. */
  lemma {:induction false} WeekPicksComplete(monday: Day, n: nat, selected: Day, mode: RepeatMode)
    ensures forall d :: monday <= d < monday + n && d != selected && Wanted(mode, d) ==>
      d in WeekPicks(monday, n, selected, mode)
  {
    if n > 0 {
      WeekPicksComplete(monday, n - 1, selected, mode);
    }
  }

  /**
   * The selected date comes first and only once; every other date is a
   * different day of its week that the mode wants, in increasing order; and
   * every such day is there. Mode `none` gives the selected date alone.
   */
  lemma SyncedDatesSpec(selected: Day, mode: RepeatMode)
    ensures |SyncedDates(selected, mode)| >= 1 && SyncedDates(selected, mode)[0] == selected
    ensures forall d :: d in SyncedDates(selected, mode)[1..] ==>
      && d != selected && Wanted(mode, d)
      && StartOfWeek(selected) <= d < StartOfWeek(selected) + 7
    ensures Increasing(SyncedDates(selected, mode)[1..])
    ensures mode != NoRepeat ==>
      forall d :: StartOfWeek(selected) <= d < StartOfWeek(selected) + 7 && d != selected && Wanted(mode, d) ==>
        d in SyncedDates(selected, mode)
    ensures mode == NoRepeat ==> SyncedDates(selected, mode) == [selected]
  {
    var r := SyncedDates(selected, mode);
    if mode != NoRepeat {
      var monday := StartOfWeek(selected);
      var p := WeekPicks(monday, 7, selected, mode);
      WeekPicksInRange(monday, 7, selected, mode);
      WeekPicksIncreasing(monday, 7, selected, mode);
      WeekPicksComplete(monday, 7, selected, mode);
      assert r[1..] == p;
      assert forall d :: d in p ==> d in r;
    } else {
      assert r[1..] == [];
    }
  }

  /** The dates of a record made on a Wednesday with mode `weekdays`: that Wednesday, then Monday, Tuesday, Thursday, Friday. */
  lemma WednesdayWeekdays(wednesday: Day)
    requires Weekday(wednesday) == 3
    ensures SyncedDates(wednesday, Weekdays) == [wednesday, wednesday - 2, wednesday - 1, wednesday + 1, wednesday + 2]
  {
    var monday := StartOfWeek(wednesday);
    WeekdayShift(wednesday, -2);
    assert monday == wednesday - 2;
    WeekdayShift(monday, 1);
    WeekdayShift(monday, 3);
    WeekdayShift(monday, 4);
    WeekdayShift(monday, 5);
    WeekdayShift(monday, 6);
    assert WeekPicks(monday, 1, wednesday, Weekdays) == [monday];
    assert WeekPicks(monday, 2, wednesday, Weekdays) == [monday, monday + 1];
    assert WeekPicks(monday, 3, wednesday, Weekdays) == [monday, monday + 1];
    assert WeekPicks(monday, 5, wednesday, Weekdays) == [monday, monday + 1, monday + 3, monday + 4];
    assert WeekPicks(monday, 7, wednesday, Weekdays) == [monday, monday + 1, monday + 3, monday + 4];
  }
}
