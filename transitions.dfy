/**
 * The store transitions of App.tsx other than the timer: the status change
 * (`updateActivityStatus`), the move to another date (`handleMoveToDate`),
 * and the two halves of `handleAddOrEditActivity`, creation and editing over
 * the dates the Schedule module computes. Each is a `map` over the store, or
 * an append to it, written here as a function from the old store to the new.
 */
module Transitions {
  import opened Calendar
  import opened Types
  import opened Schedule

  /** `updateActivityStatus`: the matching record takes the new status; nothing else changes. */
  function UpdateStatus(s: seq<ActivityEntry>, id: string, status: ActivityStatus): (r: seq<ActivityEntry>)
    ensures |r| == |s|
    ensures forall i :: 0 <= i < |s| && s[i].id == id ==> r[i] == s[i].(status := status)
    ensures forall i :: 0 <= i < |s| && s[i].id != id ==> r[i] == s[i]
  {
    seq(|s|, i requires 0 <= i < |s| => if s[i].id == id then s[i].(status := status) else s[i])
  }

  /**
   * `handleMoveToDate`: the matching record moves to `newDate`, becomes
   * Rescheduled, remembers the date it came from and the instant of the move.
   */
  function MoveToDate(s: seq<ActivityEntry>, id: string, newDate: Day, now: int): (r: seq<ActivityEntry>)
    ensures |r| == |s|
    ensures forall i :: 0 <= i < |s| && s[i].id == id ==>
      r[i] == s[i].(date := newDate, status := Rescheduled, movedFromDate := Some(s[i].date), movedAt := Some(now))
    ensures forall i :: 0 <= i < |s| && s[i].id != id ==> r[i] == s[i]
  {
    seq(|s|, i requires 0 <= i < |s| =>
      if s[i].id == id
      then s[i].(date := newDate, status := Rescheduled, movedFromDate := Some(s[i].date), movedAt := Some(now))
      else s[i])
  }

  /** A status change touches no timer and no id, so it keeps the store invariant. */
  lemma StatusKeepsInvariant(s: seq<ActivityEntry>, id: string, status: ActivityStatus)
    requires StoreInvariant(s)
    ensures StoreInvariant(UpdateStatus(s, id, status))
  {
    var a := UpdateStatus(s, id, status);
    assert forall i :: 0 <= i < |s| ==> a[i].id == s[i].id && a[i].timer == s[i].timer;
  }

  /** A move touches no timer and no id, so it keeps the store invariant. */
  lemma MoveKeepsInvariant(s: seq<ActivityEntry>, id: string, newDate: Day, now: int)
    requires StoreInvariant(s)
    ensures StoreInvariant(MoveToDate(s, id, newDate, now))
  {
    var b := MoveToDate(s, id, newDate, now);
    assert forall i :: 0 <= i < |s| ==> b[i].id == s[i].id && b[i].timer == s[i].timer;
  }

  /** Setting a status twice is setting it once. */
  lemma UpdateStatusIdempotent(s: seq<ActivityEntry>, id: string, status: ActivityStatus)
    ensures UpdateStatus(UpdateStatus(s, id, status), id, status) == UpdateStatus(s, id, status)
  {
    var a := UpdateStatus(s, id, status);
    var b := UpdateStatus(a, id, status);
    assert forall i :: 0 <= i < |s| ==> a[i].id == s[i].id;
    assert forall i :: 0 <= i < |s| ==> b[i] == a[i];
  }

  /** The values the entry form hands to `handleAddOrEditActivity`. */
  datatype Form = Form(
    kind: ActivityType,
    description: string,
    duration: int,
    overtime: int,
    startTime: Option<string>,
    alarmEnabled: bool)

  /** The records creation appends: one per date, in the order of the dates. */
  function NewEntries(dates: seq<Day>, ids: seq<string>, f: Form, now: int): (r: seq<ActivityEntry>)
    requires |ids| >= |dates|
    ensures |r| == |dates|
    ensures forall i :: 0 <= i < |r| ==>
      && r[i].id == ids[i] && r[i].date == dates[i] && r[i].timestamp == now
      && r[i].kind == f.kind && r[i].description == f.description
      && r[i].estimatedDuration == f.duration && r[i].overtime == f.overtime
      && r[i].startTime == f.startTime && r[i].alarmEnabled == f.alarmEnabled
      && r[i].status == Pending && r[i].timer == ZeroTimer
      && r[i].movedFromDate == None && r[i].movedAt == None
  {
    seq(|dates|, i requires 0 <= i < |dates| =>
      ActivityEntry(ids[i], dates[i], f.kind, f.description, now, f.duration, f.overtime,
        Pending, None, None, ZeroTimer, f.startTime, f.alarmEnabled))
  }

  /** Ids that can be given to `n` new records: distinct, and not already in the store. */
  predicate FreshIds(ids: seq<string>, s: seq<ActivityEntry>, n: nat)
  {
    && |ids| >= n
    && (forall i, j :: 0 <= i < j < n ==> ids[i] != ids[j])
    && (forall i, k :: 0 <= i < n && 0 <= k < |s| ==> ids[i] != s[k].id)
  }

  /** Creation: the new records go after the existing ones, which are untouched. */
  function Create(s: seq<ActivityEntry>, dates: seq<Day>, ids: seq<string>, f: Form, now: int): (r: seq<ActivityEntry>)
    requires |ids| >= |dates|
    ensures |r| == |s| + |dates|
    ensures r[..|s|] == s
    ensures r[|s|..] == NewEntries(dates, ids, f, now)
    ensures FreshIds(ids, s, |dates|) && StoreInvariant(s) ==> StoreInvariant(r)
  {
    var n := NewEntries(dates, ids, f, now);
    var r := s + n;
    assert r[..|s|] == s && r[|s|..] == n;
    assert forall i :: |s| <= i < |r| ==> r[i] == n[i - |s|];
    r
  }

  /** The edit applied to one record: only the form's fields change. */
  function Edited(a: ActivityEntry, f: Form): ActivityEntry
  {
    a.(kind := f.kind, description := f.description, estimatedDuration := f.duration,
       overtime := f.overtime, startTime := f.startTime, alarmEnabled := f.alarmEnabled)
  }

  /**
   * A record the edit also rewrites: replication is on, its date is one of
   * the synchronised dates, and it has the description and type the edited
   * record had when the edit began.
   */
  predicate Sibling(a: ActivityEntry, editing: ActivityEntry, dates: seq<Day>, mode: RepeatMode)
  {
    mode != NoRepeat && a.date in dates && a.description == editing.description && a.kind == editing.kind
  }

  /** The edit half: the edited record and its siblings take the form's fields. */
  function Edit(s: seq<ActivityEntry>, editing: ActivityEntry, dates: seq<Day>, mode: RepeatMode, f: Form): (r: seq<ActivityEntry>)
    ensures |r| == |s|
    // id, date, status, timer, creation instant and move history of every record are kept
    ensures forall i :: 0 <= i < |s| ==> Edited(r[i], f) == Edited(s[i], f)
    ensures forall i :: 0 <= i < |s| && (s[i].id == editing.id || Sibling(s[i], editing, dates, mode)) ==>
      r[i] == Edited(s[i], f)
    ensures forall i :: 0 <= i < |s| && s[i].id != editing.id && !Sibling(s[i], editing, dates, mode) ==>
      r[i] == s[i]
  {
    seq(|s|, i requires 0 <= i < |s| =>
      if s[i].id == editing.id || Sibling(s[i], editing, dates, mode) then Edited(s[i], f) else s[i])
  }

  /** Without replication an edit rewrites the edited record alone. */
  lemma EditWithoutRepeatTouchesOnlyTarget(s: seq<ActivityEntry>, editing: ActivityEntry, dates: seq<Day>, f: Form)
    ensures var r := Edit(s, editing, dates, NoRepeat, f);
      forall i :: 0 <= i < |s| && r[i] != s[i] ==> s[i].id == editing.id
  {
  }

  /** An edit keeps ids and timers, so it keeps the store invariant. */
  lemma EditKeepsInvariant(s: seq<ActivityEntry>, editing: ActivityEntry, dates: seq<Day>, mode: RepeatMode, f: Form)
    requires StoreInvariant(s)
    ensures StoreInvariant(Edit(s, editing, dates, mode, f))
  {
    var r := Edit(s, editing, dates, mode, f);
    assert forall i :: 0 <= i < |s| ==> r[i].id == s[i].id && r[i].timer == s[i].timer;
  }
}
