/**
 * The activity record (`ActivityEntry` in types.ts) and the invariants the
 * store of records is meant to keep.
 */
module Types {
  import opened Calendar

  datatype Option<+T> = None | Some(value: T)

  /** JavaScript truthiness of an optional number: `null`, `undefined` and `0` are falsy. */
  predicate Truthy(o: Option<int>)
  {
    o.Some? && o.value != 0
  }

  /** `x || 0` for an optional number. */
  function OrZero(o: Option<int>): int
  {
    if o.Some? then o.value else 0
  }

  datatype ActivityType = Work | Study | Home | Sleep | Workout | Other

  datatype ActivityStatus = Pending | Completed | Rescheduled

  datatype ReportInterval = Daily | Weekly | Monthly | Quarterly | HalfYearly | Yearly

  /** A record's stopwatch; `totalElapsed` and `lastStartTime` are in milliseconds. */
  datatype TimerState = TimerState(isActive: bool, lastStartTime: Option<int>, totalElapsed: int)

  /** The timer every new record gets, and the one an absent timer reads as. */
  const ZeroTimer: TimerState := TimerState(false, None, 0)

  /**
   * One activity. `kind` is the source's `type` field (a Dafny keyword);
   * `estimatedDuration` and `overtime` are minutes; `timestamp` and `movedAt`
   * are instants in milliseconds.
   */
  datatype ActivityEntry = ActivityEntry(
    id: string,
    date: Day,
    kind: ActivityType,
    description: string,
    timestamp: int,
    estimatedDuration: int,
    overtime: int,
    status: ActivityStatus,
    movedFromDate: Option<Day>,
    movedAt: Option<int>,
    timer: TimerState,
    startTime: Option<string>,
    alarmEnabled: bool)

  /** `lastStartTime` is set exactly while the timer runs. */
  predicate TimerConsistent(t: TimerState)
  {
    t.isActive <==> t.lastStartTime.Some?
  }

  predicate UniqueIds(s: seq<ActivityEntry>)
  {
    forall i, j :: 0 <= i < j < |s| ==> s[i].id != s[j].id
  }

  predicate AtMostOneRunning(s: seq<ActivityEntry>)
  {
    forall i, j :: 0 <= i < |s| && 0 <= j < |s| && s[i].timer.isActive && s[j].timer.isActive ==> i == j
  }

  predicate TimersConsistent(s: seq<ActivityEntry>)
  {
    forall i :: 0 <= i < |s| ==> TimerConsistent(s[i].timer)
  }

  /** What every store transition keeps: distinct ids, one running timer at most, consistent timers. */
  predicate StoreInvariant(s: seq<ActivityEntry>)
  {
    UniqueIds(s) && AtMostOneRunning(s) && TimersConsistent(s)
  }

  /**
   * A Completed record's timer is not running. No handler enforces it: the
   * item hides its timer buttons once the record is Completed.
   */
  predicate CompletedStopped(s: seq<ActivityEntry>)
  {
    forall i :: 0 <= i < |s| && s[i].status == Completed ==> !s[i].timer.isActive
  }

  /** The two records agree on every field but the timer. */
  predicate SameButTimer(a: ActivityEntry, b: ActivityEntry)
  {
    a.(timer := b.timer) == b
  }
}
