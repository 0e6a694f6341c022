/**
 * Timer reconciliation: `handleUpdateTimer` in App.tsx. One request names a
 * record, the elapsed time to store in it and whether it should run; a start
 * request first stops every other running timer, folding its unfinished
 * session into its `totalElapsed`. The clock is the parameter `now`.
 */
module Timers {
  import opened Types

  /** The timer of a record that another record's start stops at `now`. */
  function Folded(t: TimerState, now: int): TimerState
  {
    TimerState(false, None, t.totalElapsed + (now - OrZero(t.lastStartTime)))
  }

  /** The timer the request itself writes into its target. */
  function Requested(elapsed: int, isActive: bool, now: int): TimerState
  {
    TimerState(isActive, if isActive then Some(now) else None, elapsed)
  }

  /** The per-record step of the `map` over the store. */
  function UpdateEntry(a: ActivityEntry, id: string, elapsed: int, isActive: bool, now: int): ActivityEntry
  {
    if isActive && a.id != id && a.timer.isActive then a.(timer := Folded(a.timer, now))
    else if a.id == id then a.(timer := Requested(elapsed, isActive, now))
    else a
  }

  function UpdateTimer(s: seq<ActivityEntry>, id: string, elapsed: int, isActive: bool, now: int): (r: seq<ActivityEntry>)
    // order, length and every field but the timer are kept
    ensures |r| == |s|
    ensures forall i :: 0 <= i < |s| ==> SameButTimer(r[i], s[i])
    // the target gets exactly the requested timer
    ensures forall i :: 0 <= i < |s| && s[i].id == id ==> r[i].timer == Requested(elapsed, isActive, now)
    // a start stops and folds every other running timer; nothing else changes
    ensures forall i :: 0 <= i < |s| && s[i].id != id ==>
      r[i].timer == (if isActive && s[i].timer.isActive then Folded(s[i].timer, now) else s[i].timer)
    // after a start, only records carrying the target id can run
    ensures isActive ==> forall i :: 0 <= i < |s| && r[i].timer.isActive ==> s[i].id == id
    // after a stop, nothing but the target has changed
    ensures !isActive ==> forall i :: 0 <= i < |s| && s[i].id != id ==> r[i] == s[i]
  {
    seq(|s|, i requires 0 <= i < |s| => UpdateEntry(s[i], id, elapsed, isActive, now))
  }

  /** A start for an id that is not in the store still stops every running timer and starts none. */
  lemma StartUnknownIdStopsAll(s: seq<ActivityEntry>, id: string, elapsed: int, now: int)
    requires forall i :: 0 <= i < |s| ==> s[i].id != id
    ensures var r := UpdateTimer(s, id, elapsed, true, now);
      forall i :: 0 <= i < |r| ==> !r[i].timer.isActive
  {
  }

  /** Every update keeps the store invariant: distinct ids, at most one running, consistent timers. */
  lemma UpdateTimerKeepsInvariant(s: seq<ActivityEntry>, id: string, elapsed: int, isActive: bool, now: int)
    requires StoreInvariant(s)
    ensures StoreInvariant(UpdateTimer(s, id, elapsed, isActive, now))
  {
    var r := UpdateTimer(s, id, elapsed, isActive, now);
    forall i, j | 0 <= i < j < |r|
      ensures r[i].id != r[j].id
    {
      assert r[i].id == s[i].id && r[j].id == s[j].id;
    }
    forall i, j | 0 <= i < |r| && 0 <= j < |r| && r[i].timer.isActive && r[j].timer.isActive
      ensures i == j
    {
      if isActive {
        assert s[i].id == id == s[j].id;
        assert r[i].id == s[i].id && r[j].id == s[j].id;
      } else {
        assert s[i].id != id && s[j].id != id;
      }
    }
  }

  /**
   * Stopping the timer a start just set, at the same instant and with the same
   * elapsed value, leaves the target stopped with its elapsed time unchanged,
   * and leaves no timer running anywhere.
   */
  lemma StartThenStop(s: seq<ActivityEntry>, id: string, elapsed: int, now: int)
    ensures var r := UpdateTimer(UpdateTimer(s, id, elapsed, true, now), id, elapsed, false, now);
      && |r| == |s|
      && (forall i :: 0 <= i < |s| && s[i].id == id ==> r[i].timer == TimerState(false, None, elapsed))
      && (forall i :: 0 <= i < |s| ==> !r[i].timer.isActive)
  {
    var m := UpdateTimer(s, id, elapsed, true, now);
    var r := UpdateTimer(m, id, elapsed, false, now);
    forall i | 0 <= i < |s|
      ensures !r[i].timer.isActive
    {
      assert m[i].id == s[i].id;
    }
  }
}
