/**
 * The derived views of App.tsx, recomputed from the store on every change:
 * the records of the selected day and its completion percentage, the
 * pending / backlog / moved partition with the minutes still needed, the
 * per-category report over a reporting interval, and `formatMs`.
 */
module Aggregates {
  import opened Calendar
  import opened Types
  import opened Text

  /** `Array.prototype.filter`: the elements that pass, in their order. */
  function Filter(s: seq<ActivityEntry>, p: ActivityEntry -> bool): (r: seq<ActivityEntry>)
    ensures |r| <= |s|
    ensures forall x :: x in r <==> x in s && p(x)
  {
    if s == [] then [] else (if p(s[0]) then [s[0]] else []) + Filter(s[1..], p)
  }

  /** Each kept record occurs as often as in the input, each dropped one not at all. */
  lemma {:induction false} FilterCount(s: seq<ActivityEntry>, p: ActivityEntry -> bool)
    ensures forall x :: multiset(Filter(s, p))[x] == if p(x) then multiset(s)[x] else 0
  {
    if s != [] {
      FilterCount(s[1..], p);
      var head := if p(s[0]) then [s[0]] else [];
      assert s == [s[0]] + s[1..];
      assert multiset(s) == multiset([s[0]]) + multiset(s[1..]);
      assert multiset(Filter(s, p)) == multiset(head) + multiset(Filter(s[1..], p));
    }
  }

  /** Filtering keeps store order: the filter of a concatenation is the concatenation of the filters. */
  lemma {:induction false} FilterConcat(a: seq<ActivityEntry>, b: seq<ActivityEntry>, p: ActivityEntry -> bool)
    ensures Filter(a + b, p) == Filter(a, p) + Filter(b, p)
  {
    if a == [] {
      assert a + b == b;
    } else {
      var ab := a + b;
      assert ab != [] && ab[0] == a[0] && ab[1..] == a[1..] + b;
      FilterConcat(a[1..], b, p);
    }
  }

  lemma {:induction false} FilterKeepsAll(s: seq<ActivityEntry>, p: ActivityEntry -> bool)
    requires forall x :: x in s ==> p(x)
    ensures Filter(s, p) == s
  {
    if s != [] {
      FilterKeepsAll(s[1..], p);
      assert [s[0]] + s[1..] == s;
    }
  }

  lemma {:induction false} FilterKeepsNone(s: seq<ActivityEntry>, p: ActivityEntry -> bool)
    requires forall x :: x in s ==> !p(x)
    ensures Filter(s, p) == []
  {
    if s != [] {
      FilterKeepsNone(s[1..], p);
    }
  }

  // ---------------------------------------------------------------- day view

  function OnDate(d: Day): ActivityEntry -> bool
  {
    (a: ActivityEntry) => a.date == d
  }

  const IsCompleted: ActivityEntry -> bool := (a: ActivityEntry) => a.status == Completed

  /** `dashboardActivities`: the records of the selected date, in store order. */
  function DashboardActivities(s: seq<ActivityEntry>, selected: Day): (r: seq<ActivityEntry>)
    ensures forall a :: a in r <==> a in s && a.date == selected
    ensures forall a :: multiset(r)[a] == if a.date == selected then multiset(s)[a] else 0
  {
    FilterCount(s, OnDate(selected));
    Filter(s, OnDate(selected))
  }

  /**
   * The day view keeps store order: after records are appended, the day
   * shows its old records first, then the new ones of that day.
   */
  lemma DashboardOfAppend(s: seq<ActivityEntry>, added: seq<ActivityEntry>, selected: Day)
    ensures DashboardActivities(s + added, selected) == DashboardActivities(s, selected) + DashboardActivities(added, selected)
  {
    FilterConcat(s, added, OnDate(selected));
  }

  /**
   * `Math.round(completed / total * 100)`, as exact rounding half up of the
   * fraction `100 * completed / total`.
   */
  function RoundedPercent(completed: int, total: int): (r: int)
    requires 0 <= completed <= total && total > 0
    ensures 2 * total * r <= 200 * completed + total < 2 * total * (r + 1)
    ensures 0 <= r <= 100
    ensures completed == 0 ==> r == 0
    ensures completed == total ==> r == 100
  {
    var n := 200 * completed + total;
    var d := 2 * total;
    var r := n / d;
    assert n == d * r + n % d;
    MulSign(d, r);
    MulSign(d, r - 100);
    assert d * (r - 100) == d * r - 100 * d;
    assert d * (r + 1) == d * r + d;
    if completed == total then
      DivUnique(n, d, 100);
      r
    else if completed == 0 then
      DivUnique(n, d, 0);
      r
    else
      r
  }

  /** On a day whose records are all Completed every record counts; on one with none, none does. */
  lemma CompletedOfDay(s: seq<ActivityEntry>, selected: Day)
    ensures var day := DashboardActivities(s, selected);
      (forall a :: a in s && a.date == selected ==> a.status == Completed) ==> |Filter(day, IsCompleted)| == |day|
    ensures var day := DashboardActivities(s, selected);
      (forall a :: a in s && a.date == selected ==> a.status != Completed) ==> |Filter(day, IsCompleted)| == 0
  {
    var day := DashboardActivities(s, selected);
    if forall a :: a in day ==> a.status == Completed {
      FilterKeepsAll(day, IsCompleted);
    }
    if forall a :: a in day ==> a.status != Completed {
      FilterKeepsNone(day, IsCompleted);
    }
  }

  /** `completionRate`: 0 on an empty day, otherwise the rounded share of Completed records. */
  function CompletionRate(s: seq<ActivityEntry>, selected: Day): (rate: int)
    ensures 0 <= rate <= 100
    ensures |DashboardActivities(s, selected)| == 0 ==> rate == 0
    ensures var day := DashboardActivities(s, selected);
      |day| > 0 ==> rate == RoundedPercent(|Filter(day, IsCompleted)|, |day|)
    ensures (forall a :: a in s && a.date == selected ==> a.status == Completed) && |DashboardActivities(s, selected)| > 0
      ==> rate == 100
    ensures (forall a :: a in s && a.date == selected ==> a.status != Completed) ==> rate == 0
  {
    var day := DashboardActivities(s, selected);
    if |day| == 0 then 0
    else
      CompletedOfDay(s, selected);
      RoundedPercent(|Filter(day, IsCompleted)|, |day|)
  }

  // ---------------------------------------------------------------- backlog

  /** Sum of `estimatedDuration` over the records, the minutes they plan. */
  function Minutes(s: seq<ActivityEntry>): int
  {
    if s == [] then 0 else s[0].estimatedDuration + Minutes(s[1..])
  }

  lemma {:induction false} MinutesConcat(a: seq<ActivityEntry>, b: seq<ActivityEntry>)
    ensures Minutes(a + b) == Minutes(a) + Minutes(b)
  {
    if a == [] {
      assert a + b == b;
    } else {
      assert (a + b)[0] == a[0] && (a + b)[1..] == a[1..] + b;
      MinutesConcat(a[1..], b);
    }
  }

  /** Filtering by two exclusive tests and adding up is filtering by either test. */
  lemma {:induction false} MinutesSplit(s: seq<ActivityEntry>, p: ActivityEntry -> bool, q: ActivityEntry -> bool, either: ActivityEntry -> bool)
    requires forall a :: either(a) <==> p(a) || q(a)
    requires forall a :: !(p(a) && q(a))
    ensures Minutes(Filter(s, p)) + Minutes(Filter(s, q)) == Minutes(Filter(s, either))
  {
    if s != [] {
      MinutesSplit(s[1..], p, q, either);
      var hp := if p(s[0]) then [s[0]] else [];
      var hq := if q(s[0]) then [s[0]] else [];
      var he := if either(s[0]) then [s[0]] else [];
      MinutesConcat(hp, Filter(s[1..], p));
      MinutesConcat(hq, Filter(s[1..], q));
      MinutesConcat(he, Filter(s[1..], either));
    }
  }

  function PendingOn(today: Day): ActivityEntry -> bool
  {
    (a: ActivityEntry) => a.status == Pending && a.date == today
  }

  function PendingBefore(today: Day): ActivityEntry -> bool
  {
    (a: ActivityEntry) => a.status == Pending && a.date < today
  }

  function PendingUpTo(today: Day): ActivityEntry -> bool
  {
    (a: ActivityEntry) => a.status == Pending && a.date <= today
  }

  const IsRescheduled: ActivityEntry -> bool := (a: ActivityEntry) => a.status == Rescheduled

  /** `backlogStats`, keeping the minutes rather than the hours rounded to one decimal. */
  datatype Backlog = Backlog(
    pending: seq<ActivityEntry>,
    backlog: seq<ActivityEntry>,
    moved: seq<ActivityEntry>,
    minutesNeeded: int)

  function BacklogStats(s: seq<ActivityEntry>, today: Day): (b: Backlog)
    ensures forall a :: a in b.pending <==> a in s && a.status == Pending && a.date == today
    ensures forall a :: a in b.backlog <==> a in s && a.status == Pending && a.date < today
    ensures forall a :: a in b.moved <==> a in s && a.status == Rescheduled
    // each listed record occurs as often as in the store
    ensures forall a :: multiset(b.pending)[a] == if a.status == Pending && a.date == today then multiset(s)[a] else 0
    ensures forall a :: multiset(b.backlog)[a] == if a.status == Pending && a.date < today then multiset(s)[a] else 0
    ensures forall a :: multiset(b.moved)[a] == if a.status == Rescheduled then multiset(s)[a] else 0
    // pending and backlog are disjoint and together hold every Pending record up to today
    ensures forall a :: !(a in b.pending && a in b.backlog)
    ensures forall a :: a in b.pending || a in b.backlog <==> a in s && a.status == Pending && a.date <= today
    // the minutes are those of the Pending records dated today or earlier, counted once each
    ensures b.minutesNeeded == Minutes(Filter(s, PendingUpTo(today)))
  {
    var pending := Filter(s, PendingOn(today));
    var backlog := Filter(s, PendingBefore(today));
    var moved := Filter(s, IsRescheduled);
    FilterCount(s, PendingOn(today));
    FilterCount(s, PendingBefore(today));
    FilterCount(s, IsRescheduled);
    MinutesConcat(pending, backlog);
    MinutesSplit(s, PendingOn(today), PendingBefore(today), PendingUpTo(today));
    Backlog(pending, backlog, moved, Minutes(pending + backlog))
  }

  // ---------------------------------------------------------------- report

  /** Whether a record falls in the reporting window anchored at the selected date. */
  predicate InInterval(interval: ReportInterval, anchor: Day, a: ActivityEntry)
  {
    match interval
    case Daily => a.date == anchor
    case Weekly => anchor - a.date < 7
    case Monthly => Month(a.date) == Month(anchor) && Year(a.date) == Year(anchor)
    case Yearly => Year(a.date) == Year(anchor)
    case Quarterly => false
    case HalfYearly => false
  }

  function InWindow(interval: ReportInterval, anchor: Day): ActivityEntry -> bool
  {
    a => InInterval(interval, anchor, a)
  }

  /** `intervalActivities`: the records in the window, in store order. */
  function IntervalActivities(s: seq<ActivityEntry>, interval: ReportInterval, anchor: Day): (r: seq<ActivityEntry>)
    ensures forall a :: a in r <==> a in s && InInterval(interval, anchor, a)
    ensures forall a :: multiset(r)[a] == if InInterval(interval, anchor, a) then multiset(s)[a] else 0
    ensures interval == Quarterly || interval == HalfYearly ==> r == []
    ensures interval == Weekly ==> forall a :: a in s && a.date >= anchor ==> a in r
  {
    FilterCount(s, InWindow(interval, anchor));
    if interval == Quarterly || interval == HalfYearly then
      FilterKeepsNone(s, InWindow(interval, anchor));
      Filter(s, InWindow(interval, anchor))
    else
      Filter(s, InWindow(interval, anchor))
  }

  /** Minutes planned for a category: `estimatedDuration + overtime` summed over its records. */
  function CategoryMinutes(s: seq<ActivityEntry>, k: ActivityType): int
  {
    if s == [] then 0
    else CategoryMinutes(s[..|s| - 1], k) + (if s[|s| - 1].kind == k then s[|s| - 1].estimatedDuration + s[|s| - 1].overtime else 0)
  }

  /** The categories in the order they first appear: the key order of the report object. */
  function FirstSeen(s: seq<ActivityEntry>): seq<ActivityType>
  {
    if s == [] then []
    else
      var seen := FirstSeen(s[..|s| - 1]);
      if s[|s| - 1].kind in seen then seen else seen + [s[|s| - 1].kind]
  }

  /** Each category of the records appears once in the report, and no other. */
  lemma {:induction false} FirstSeenSpec(s: seq<ActivityEntry>)
    ensures forall k :: k in FirstSeen(s) <==> exists a :: a in s && a.kind == k
    ensures forall i, j :: 0 <= i < j < |FirstSeen(s)| ==> FirstSeen(s)[i] != FirstSeen(s)[j]
  {
    if s != [] {
      var init := s[..|s| - 1];
      FirstSeenSpec(init);
      assert s == init + [s[|s| - 1]];
      forall k | k in FirstSeen(s)
        ensures exists a :: a in s && a.kind == k
      {
        if k in FirstSeen(init) {
          var a :| a in init && a.kind == k;
          assert a in s;
        } else {
          assert s[|s| - 1] in s;
        }
      }
      forall k | exists a :: a in s && a.kind == k
        ensures k in FirstSeen(s)
      {
        var a :| a in s && a.kind == k;
        if a != s[|s| - 1] {
          assert a in init;
        }
      }
    }
  }

  /** A category that no record has gets no minutes. */
  lemma {:induction false} CategoryMinutesAbsent(s: seq<ActivityEntry>, k: ActivityType)
    requires forall a :: a in s ==> a.kind != k
    ensures CategoryMinutes(s, k) == 0
  {
    if s != [] {
      assert forall a :: a in s[..|s| - 1] ==> a in s;
      CategoryMinutesAbsent(s[..|s| - 1], k);
    }
  }

  /** What one more record adds to the categories seen and to their minutes. */
  lemma ReportStep(xs: seq<ActivityEntry>, i: int)
    requires 0 <= i < |xs|
    ensures var done, x := xs[..i], xs[i];
      && FirstSeen(xs[..i + 1]) == (if x.kind in FirstSeen(done) then FirstSeen(done) else FirstSeen(done) + [x.kind])
      && (x.kind !in FirstSeen(done) ==> CategoryMinutes(done, x.kind) == 0)
      && forall k :: CategoryMinutes(xs[..i + 1], k) ==
           CategoryMinutes(done, k) + (if x.kind == k then x.estimatedDuration + x.overtime else 0)
  {
    var done, next, x := xs[..i], xs[..i + 1], xs[i];
    assert next[..i] == done && next[i] == x;
    FirstSeenSpec(done);
    if x.kind !in FirstSeen(done) {
      CategoryMinutesAbsent(done, x.kind);
    }
  }

  /**
   * The `reduce` of `reportData`: a category-to-minutes object built in
   * place, with its keys in insertion order.
   */
  method Summarize(xs: seq<ActivityEntry>) returns (acc: map<ActivityType, int>, keys: seq<ActivityType>)
    ensures keys == FirstSeen(xs)
    ensures forall k :: k in acc <==> k in keys
    ensures forall k :: k in acc ==> acc[k] == CategoryMinutes(xs, k)
  {
    acc := map[];
    keys := [];
    var i := 0;
    while i < |xs|
      invariant 0 <= i <= |xs|
      invariant keys == FirstSeen(xs[..i])
      invariant forall k :: k in acc <==> k in keys
      invariant forall k :: k in acc ==> acc[k] == CategoryMinutes(xs[..i], k)
    {
      var x := xs[i];
      ReportStep(xs, i);
      if x.kind !in acc {
        keys := keys + [x.kind];
      }
      var prior := if x.kind in acc then acc[x.kind] else 0;
      acc := acc[x.kind := prior + (x.estimatedDuration + x.overtime)];
      i := i + 1;
    }
    assert xs[..|xs|] == xs;
  }

  /**
   * `reportData`: filter the store to the window, fold the records into a
   * category-to-minutes object, and list its entries in key order.
   */
  method ReportData(s: seq<ActivityEntry>, interval: ReportInterval, anchor: Day) returns (report: seq<(ActivityType, int)>)
    ensures var xs := IntervalActivities(s, interval, anchor);
      && |report| == |FirstSeen(xs)|
      && forall i :: 0 <= i < |report| ==> report[i] == (FirstSeen(xs)[i], CategoryMinutes(xs, FirstSeen(xs)[i]))
  {
    var xs := IntervalActivities(s, interval, anchor);
    report := ReportEntries(xs);
  }

  /** `Object.entries` of the folded object: each first-seen category with its minutes. */
  method ReportEntries(xs: seq<ActivityEntry>) returns (report: seq<(ActivityType, int)>)
    ensures |report| == |FirstSeen(xs)|
    ensures forall i :: 0 <= i < |report| ==> report[i] == (FirstSeen(xs)[i], CategoryMinutes(xs, FirstSeen(xs)[i]))
  {
    var acc, keys := Summarize(xs);
    report := [];
    var j := 0;
    while j < |keys|
      invariant 0 <= j <= |keys|
      invariant |report| == j
      invariant forall n :: 0 <= n < j ==> report[n] == (keys[n], CategoryMinutes(xs, keys[n]))
    {
      report := report + [(keys[j], acc[keys[j]])];
      j := j + 1;
    }
  }

  /** The scenario of two records of one category on one day: 30 + 0 and 15 + 5 minutes report as 50. */
  lemma DailyReportScenario(a: ActivityEntry, b: ActivityEntry)
    requires a.date == b.date && a.kind == Work && b.kind == Work
    requires a.estimatedDuration == 30 && a.overtime == 0 && b.estimatedDuration == 15 && b.overtime == 5
    ensures var xs := IntervalActivities([a, b], Daily, a.date);
      FirstSeen(xs) == [Work] && CategoryMinutes(xs, Work) == 50
  {
    var xs := IntervalActivities([a, b], Daily, a.date);
    FilterKeepsAll([a, b], InWindow(Daily, a.date));
    assert xs == [a, b];
    assert xs[..1] == [a] && [a][..0] == [];
    assert FirstSeen([a]) == [Work];
    assert CategoryMinutes([a], Work) == 30;
  }

  // ---------------------------------------------------------------- formatMs

  /**
   * `formatMs`: the whole minutes `s / 60` of `s = floor(ms / 1000)`, a colon,
   * and the seconds `s % 60` as two digits.
   */
  function FormatMs(ms: int): (r: string)
    ensures ms >= 0 ==>
      && |r| >= 4 && r[|r| - 3] == ':'
      && AllDigits(r[..|r| - 3]) && ParseNat(r[..|r| - 3]) == ms / 1000 / 60
      && AllDigits(r[|r| - 2..]) && ParseNat(r[|r| - 2..]) == ms / 1000 % 60
    // the minutes carry no leading zero
    ensures ms >= 0 ==> |r| == 4 || r[0] != '0'
  {
    var s := ms / 1000;
    var r := IntToString(s / 60) + ":" + Pad2(JsRem(s, 60));
    if ms >= 0 then
      assert r[..|r| - 3] == NatToString(s / 60);
      assert r[|r| - 2..] == Pad2(s % 60);
      ParseNatToString(s / 60);
      r
    else r
  }

  /** The whole seconds of a `M:SS` text, read back. */
  function ParseMinSec(r: string): int
  {
    if |r| < 3 then 0 else ParseNat(r[..|r| - 3]) * 60 + ParseNat(r[|r| - 2..])
  }

  lemma FormatMsRoundTrip(ms: int)
    requires ms >= 0
    ensures ParseMinSec(FormatMs(ms)) == ms / 1000
  {
    var s := ms / 1000;
    MinSecFields(FormatMs(ms), s / 60, s % 60);
    assert s == (s / 60) * 60 + s % 60;
  }

  /** A `M:SS` text whose fields read `m` and `sec` reads back as `m * 60 + sec` seconds. */
  lemma MinSecFields(r: string, m: int, sec: int)
    requires |r| >= 4 && ParseNat(r[..|r| - 3]) == m && ParseNat(r[|r| - 2..]) == sec
    ensures ParseMinSec(r) == m * 60 + sec
  {
  }
}
