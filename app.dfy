/**
 * The state App.tsx keeps with `useState` and changes through its setters:
 * the records (`activities`), the held alarm (`activeAlarmTask`) and the
 * record open in the editor (`editingActivity`). Each event handler is a
 * method that assigns the new state its specification function computes,
 * and keeps the store invariant. The clock, the current day and the fresh
 * ids are parameters.
 */
module App {
  import opened Calendar
  import opened Types
  import opened Schedule
  import Timers
  import Transitions
  import ActivityItem
  import Alarm

  class Store {
    var activities: seq<ActivityEntry>
    var activeAlarmTask: Option<ActivityEntry>
    var editingActivity: Option<ActivityEntry>

    /** Distinct ids, at most one running timer, and `lastStartTime` set exactly while running. */
    ghost predicate Valid()
      reads this
    {
      StoreInvariant(activities)
    }

    /** The initial state: no records, no alarm, nothing being edited. */
    constructor ()
      ensures Valid()
      ensures activities == [] && activeAlarmTask == None && editingActivity == None
    {
      activities := [];
      activeAlarmTask := None;
      editingActivity := None;
    }

    /** `handleUpdateTimer`. */
    method HandleUpdateTimer(id: string, elapsed: int, isActive: bool, now: int)
      requires Valid()
      modifies this`activities
      ensures Valid()
      ensures activities == Timers.UpdateTimer(old(activities), id, elapsed, isActive, now)
    {
      Timers.UpdateTimerKeepsInvariant(activities, id, elapsed, isActive, now);
      activities := Timers.UpdateTimer(activities, id, elapsed, isActive, now);
    }

    /** `updateActivityStatus`. */
    method UpdateActivityStatus(id: string, status: ActivityStatus)
      requires Valid()
      modifies this`activities
      ensures Valid()
      ensures activities == Transitions.UpdateStatus(old(activities), id, status)
    {
      Transitions.StatusKeepsInvariant(activities, id, status);
      activities := Transitions.UpdateStatus(activities, id, status);
    }

    /** `handleMoveToDate`. */
    method HandleMoveToDate(id: string, newDate: Day, now: int)
      requires Valid()
      modifies this`activities
      ensures Valid()
      ensures activities == Transitions.MoveToDate(old(activities), id, newDate, now)
    {
      Transitions.MoveKeepsInvariant(activities, id, newDate, now);
      activities := Transitions.MoveToDate(activities, id, newDate, now);
    }

    /** The edit button of an item (or the add button, with `None`) opens the editor. */
    method OpenEditor(a: Option<ActivityEntry>)
      modifies this`editingActivity
      ensures editingActivity == a
    {
      editingActivity := a;
    }

    /**
     * `handleAddOrEditActivity`: compute the dates to synchronise, then edit
     * the open record and its siblings and close the editor, or append one new
     * record per date. `ids` stands for the ids the source draws at random.
     */
    method HandleAddOrEditActivity(selected: Day, f: Transitions.Form, mode: RepeatMode, ids: seq<string>, now: int)
      requires Valid()
      requires editingActivity.None? ==> Transitions.FreshIds(ids, activities, |SyncedDates(selected, mode)|)
      modifies this`activities, this`editingActivity
      ensures Valid()
      ensures old(editingActivity).Some? ==>
        && activities == Transitions.Edit(old(activities), old(editingActivity).value, SyncedDates(selected, mode), mode, f)
        && editingActivity == None
      ensures old(editingActivity).None? ==>
        && activities == Transitions.Create(old(activities), SyncedDates(selected, mode), ids, f, now)
        && activities[..|old(activities)|] == old(activities)
        && activities[|old(activities)|..] == Transitions.NewEntries(SyncedDates(selected, mode), ids, f, now)
        && editingActivity == None
    {
      var dates := DatesToSync(selected, mode);
      if editingActivity.Some? {
        Transitions.EditKeepsInvariant(activities, editingActivity.value, dates, mode, f);
        activities := Transitions.Edit(activities, editingActivity.value, dates, mode, f);
        editingActivity := None;
      } else {
        activities := Transitions.Create(activities, dates, ids, f, now);
      }
    }

    /**
     * One run of the alarm effect at the given day and wall-clock minute;
     * `raised` says whether the alarm cue starts.
     */
    method AlarmTick(today: Day, hours: int, minutes: int) returns (raised: bool)
      requires 0 <= hours < 24 && 0 <= minutes < 60
      modifies this`activeAlarmTask
      ensures (activeAlarmTask, raised) == Alarm.Tick(activities, today, Alarm.FormatHM(hours, minutes), old(activeAlarmTask))
    {
      var tick := Alarm.Tick(activities, today, Alarm.FormatHM(hours, minutes), activeAlarmTask);
      activeAlarmTask, raised := tick.0, tick.1;
    }

    /** `dismissAlarm`. */
    method DismissAlarm()
      modifies this`activeAlarmTask
      ensures activeAlarmTask == None
    {
      activeAlarmTask := Alarm.Dismiss(activeAlarmTask);
    }

    /** `startTaskFromAlarm`. */
    method StartTaskFromAlarm(now: int)
      requires Valid()
      modifies this`activities, this`activeAlarmTask
      ensures Valid()
      ensures (activities, activeAlarmTask) == Alarm.StartFromAlarm(old(activities), old(activeAlarmTask), now)
    {
      if activeAlarmTask.Some? {
        HandleUpdateTimer(activeAlarmTask.value.id, activeAlarmTask.value.timer.totalElapsed, true, now);
        DismissAlarm();
      }
    }

    /**
     * The timer button of the item showing record `i`, offered while the
     * record is not Completed: the command of `toggleTimer`, handled by
     * `handleUpdateTimer`.
     */
    method ToggleTimer(i: int, now: int)
      requires Valid()
      requires 0 <= i < |activities| && activities[i].status != Completed
      modifies this`activities
      ensures Valid()
      ensures activities == ActivityItem.Send(old(activities), ActivityItem.ToggleTimer(old(activities)[i], now), now)
      ensures CompletedStopped(old(activities)) ==> CompletedStopped(activities)
    {
      var c := ActivityItem.ToggleTimer(activities[i], now);
      if CompletedStopped(activities) {
        ActivityItem.ControlsKeepCompletedStopped(activities, i, now);
      }
      HandleUpdateTimer(c.id, c.elapsed, c.isActive, now);
    }

    /**
     * The complete button of the item showing record `i`: `stopTimer` sends
     * the stop command, then the status change.
     */
    method CompleteActivity(i: int, now: int)
      requires Valid()
      requires 0 <= i < |activities| && activities[i].status != Completed
      modifies this`activities
      ensures Valid()
      ensures activities == ActivityItem.Complete(old(activities), old(activities)[i], now)
      ensures activities[i].status == Completed && !activities[i].timer.isActive
      ensures CompletedStopped(old(activities)) ==> CompletedStopped(activities)
    {
      var a := activities[i];
      ActivityItem.CompleteStopsAndCompletes(activities, i, now);
      if CompletedStopped(activities) {
        ActivityItem.ControlsKeepCompletedStopped(activities, i, now);
      }
      var c := ActivityItem.StopTimer(a, now);
      HandleUpdateTimer(c.id, c.elapsed, c.isActive, now);
      UpdateActivityStatus(a.id, Completed);
    }
  }
}
