/**
 * The alarm monitor of App.tsx: on every clock tick it looks for the first
 * record due at the current minute, and holds that record (as it was when
 * found) until it is dismissed, started, or replaced by a later tick whose
 * first due record has another id. The tick's date and wall-clock
 * hours and minutes are parameters; the audible cue is not modelled.
 */
module Alarm {
  import opened Calendar
  import opened Types
  import opened Text
  import Timers

  /** The current minute as the source builds it: hours and minutes, each padded to two digits. */
  function FormatHM(hours: int, minutes: int): (hm: string)
    requires 0 <= hours < 24 && 0 <= minutes < 60
    ensures |hm| == 5 && hm[2] == ':'
    ensures AllDigits(hm[..2]) && AllDigits(hm[3..])
    ensures ParseNat(hm[..2]) == hours && ParseNat(hm[3..]) == minutes
  {
    var hm := Pad2(hours) + ":" + Pad2(minutes);
    assert hm[..2] == Pad2(hours) && hm[3..] == Pad2(minutes);
    hm
  }

  /** Distinct minutes give distinct strings, so an alarm time matches one minute of the day. */
  lemma FormatHMInjective(h1: int, m1: int, h2: int, m2: int)
    requires 0 <= h1 < 24 && 0 <= m1 < 60 && 0 <= h2 < 24 && 0 <= m2 < 60
    requires FormatHM(h1, m1) == FormatHM(h2, m2)
    ensures h1 == h2 && m1 == m2
  {
  }

  /** A record due now: today's, set for this minute, alarm on, Pending, and not running. */
  predicate Due(a: ActivityEntry, today: Day, hm: string)
  {
    a.date == today && a.startTime == Some(hm) && a.alarmEnabled && a.status == Pending && !a.timer.isActive
  }

  /** `activities.find(...)`: the first due record in store order. */
  function FindDue(s: seq<ActivityEntry>, today: Day, hm: string): (found: Option<ActivityEntry>)
    ensures found.None? <==> forall i :: 0 <= i < |s| ==> !Due(s[i], today, hm)
    ensures found.Some? ==>
      exists i :: 0 <= i < |s| && s[i] == found.value && Due(s[i], today, hm) &&
        (forall j :: 0 <= j < i ==> !Due(s[j], today, hm))
  {
    if s == [] then None
    else if Due(s[0], today, hm) then Some(s[0])
    else
      var rest := FindDue(s[1..], today, hm);
      if rest.Some? then
        var k :| 0 <= k < |s| - 1 && s[1..][k] == rest.value && Due(s[1..][k], today, hm) &&
          forall j :: 0 <= j < k ==> !Due(s[1..][j], today, hm);
        assert s[k + 1] == rest.value && forall j :: 1 <= j < k + 1 ==> s[j] == s[1..][j - 1];
        rest
      else
        assert forall i :: 1 <= i < |s| ==> s[i] == s[1..][i - 1];
        rest
  }

  /**
   * One tick: the first due record (`FindDue`) replaces the held alarm when
   * its id differs from the held one (or nothing is held); otherwise the held
   * alarm stays.
   * `raised` says whether the cue starts.
   */
  function Tick(s: seq<ActivityEntry>, today: Day, hm: string, held: Option<ActivityEntry>): (r: (Option<ActivityEntry>, bool))
    ensures r.1 <==> FindDue(s, today, hm).Some? && (held.None? || held.value.id != FindDue(s, today, hm).value.id)
    ensures r.1 ==> r.0 == FindDue(s, today, hm)
    ensures !r.1 ==> r.0 == held
    ensures r.0 != held ==> r.0.Some? && r.0.value in s && Due(r.0.value, today, hm)
  {
    var trigger := FindDue(s, today, hm);
    if trigger.Some? && (held.None? || held.value.id != trigger.value.id) then (trigger, true)
    else (held, false)
  }

  /** `dismissAlarm`: nothing is held afterwards. */
  function Dismiss(held: Option<ActivityEntry>): (r: Option<ActivityEntry>)
    ensures r.None?
  {
    None
  }

  /**
   * `startTaskFromAlarm`: start the held record's timer with the elapsed time
   * it had when the alarm took it, then dismiss; with nothing held, nothing
   * happens.
   */
  function StartFromAlarm(s: seq<ActivityEntry>, held: Option<ActivityEntry>, now: int): (r: (seq<ActivityEntry>, Option<ActivityEntry>))
    ensures r.1.None?
    ensures held.None? ==> r.0 == s
    ensures held.Some? ==> r.0 == Timers.UpdateTimer(s, held.value.id, held.value.timer.totalElapsed, true, now)
  {
    if held.Some? then (Timers.UpdateTimer(s, held.value.id, held.value.timer.totalElapsed, true, now), Dismiss(held))
    else (s, held)
  }

  /**
   * The scenario of a 09:00 alarm: a tick at 09:00 raises it for the due
   * record; a tick at 09:01 at which nothing is due keeps it held without a
   * new cue.
   */
  lemma NineOClockScenario(a: ActivityEntry, today: Day)
    requires a.date == today && a.startTime == Some("09:00") && a.alarmEnabled
    requires a.status == Pending && !a.timer.isActive
    ensures FormatHM(9, 0) == "09:00"
    ensures Tick([a], today, FormatHM(9, 0), None) == (Some(a), true)
    ensures Tick([a], today, FormatHM(9, 1), Some(a)) == (Some(a), false)
  {
    assert Pad2(9) == "09" && Pad2(0) == "00";
    assert Pad2(1) == "01";
    assert FormatHM(9, 1) != "09:00" by {
      assert FormatHM(9, 1)[4] == '1';
    }
  }

  /** While the same record stays due, ticks after the first raise nothing new. */
  lemma HeldAlarmIsNotRaisedAgain(s: seq<ActivityEntry>, today: Day, hm: string, held: Option<ActivityEntry>)
    requires Tick(s, today, hm, held).1
    ensures var next := Tick(s, today, hm, held).0;
      Tick(s, today, hm, next) == (next, false)
  {
  }

  /**
   * A held alarm is not kept until it is answered: a later tick whose first
   * due record has another id replaces it and raises the cue again.
   */
  lemma LaterDueRecordReplacesHeld(s: seq<ActivityEntry>, today: Day, hm: string, a: ActivityEntry, b: ActivityEntry)
    requires FindDue(s, today, hm) == Some(b) && a.id != b.id
    ensures Tick(s, today, hm, Some(a)) == (Some(b), true)
  {
  }

  /**
   * Dismissing does not silence the minute: a tick after a dismissal, in the
   * same minute with the record still due, raises the alarm again.
   */
  lemma DismissedAlarmComesBack(s: seq<ActivityEntry>, today: Day, hm: string, held: Option<ActivityEntry>)
    requires Tick(s, today, hm, held).1
    ensures var next := Tick(s, today, hm, held).0;
      Tick(s, today, hm, Dismiss(next)) == (next, true)
  {
  }

  /**
   * Starting a freshly raised alarm runs the record that was due, with the
   * elapsed time it has in the store, and no other timer.
   */
  lemma StartFreshAlarm(s: seq<ActivityEntry>, today: Day, hm: string, now: int)
    requires UniqueIds(s)
    requires Tick(s, today, hm, None).1
    ensures var held := Tick(s, today, hm, None).0;
      var r := StartFromAlarm(s, held, now).0;
      && |r| == |s|
      && (forall i :: 0 <= i < |s| ==> (r[i].timer.isActive <==> s[i] == held.value))
      && (forall i :: 0 <= i < |s| && s[i] == held.value ==> r[i].timer == TimerState(true, Some(now), s[i].timer.totalElapsed))
  {
    var held := Tick(s, today, hm, None).0;
    var k :| 0 <= k < |s| && s[k] == held.value;
    var r := StartFromAlarm(s, held, now).0;
    forall i | 0 <= i < |s|
      ensures r[i].timer.isActive <==> s[i] == held.value
    {
      if i != k {
        assert s[i].id != s[k].id;
      }
    }
  }

  /**
   * The held alarm is a copy taken when it was raised. Starting it after its
   * record was completed runs that Completed record's timer, from the elapsed
   * time of the copy.
   */
  lemma StaleAlarmRunsCompletedRecord(s: seq<ActivityEntry>, held: Option<ActivityEntry>, now: int, i: int)
    requires held.Some? && 0 <= i < |s| && s[i].id == held.value.id && s[i].status == Completed
    ensures var r := StartFromAlarm(s, held, now).0;
      && r[i].status == Completed && r[i].timer.isActive
      && r[i].timer.totalElapsed == held.value.timer.totalElapsed
      && !CompletedStopped(r)
  {
    var r := StartFromAlarm(s, held, now).0;
    assert r[i].status == Completed && r[i].timer.isActive;
  }
}
