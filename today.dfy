/** The daily view of src/pages/Today.tsx: the entries of the selected date, the
    minutes they take, and the load percentage of an eight-hour day. */
module Today {
  import opened Wrappers
  import opened Types
  import opened JsText
  import opened CycleLogic

  /** `schedule.filter(task => task.date === selectedDate)` */
  function TasksForDate(schedule: seq<ScheduledTask>, date: string): (r: seq<ScheduledTask>)
    ensures |r| <= |schedule|
  {
    if schedule == [] then []
    else
      var last := schedule[|schedule| - 1];
      TasksForDate(schedule[..|schedule| - 1], date) + (if last.date == date then [last] else [])
  }

  /** The filter keeps exactly the entries of the date. */
  lemma {:induction false} TasksForDateMembers(schedule: seq<ScheduledTask>, date: string)
    ensures forall e :: e in TasksForDate(schedule, date) <==> e in schedule && e.date == date
  {
    if schedule != [] {
      var init := schedule[..|schedule| - 1];
      TasksForDateMembers(init, date);
      assert schedule == init + [schedule[|schedule| - 1]];
    }
  }

  /** The filter keeps the original order: filtering a concatenation filters each part. */
  lemma {:induction false} TasksForDateAppend(a: seq<ScheduledTask>, b: seq<ScheduledTask>, date: string)
    ensures TasksForDate(a + b, date) == TasksForDate(a, date) + TasksForDate(b, date)
    decreases |b|
  {
    if b != [] {
      var init := b[..|b| - 1];
      TasksForDateAppend(a, init, date);
      assert (a + b)[..|a + b| - 1] == a + init;
    } else {
      assert a + b == a;
    }
  }

  /** One term of the reduce: `endH * 60 + endM - startH * 60 - startM`, `None`
      (NaN) when either time does not read as `H:M`. */
  function Minutes(task: ScheduledTask): (r: Option<int>)
    ensures r.Some? <==> ClockMinutes(task.startTime).Some? && ClockMinutes(task.endTime).Some?
  {
    match (ClockMinutes(task.startTime), ClockMinutes(task.endTime))
    case (Some(s), Some(e)) => Some(e as int - s as int)
    case _ => None
  }

  /** JavaScript `+` on numbers that may be NaN (`None`). */
  function Add(x: Option<int>, y: Option<int>): (r: Option<int>)
    ensures r.Some? <==> x.Some? && y.Some?
  {
    if x.Some? && y.Some? then Some(x.value + y.value) else None
  }

  /** `tasks.reduce((sum, task) => sum + term(task), 0)` */
  function TotalMinutes(tasks: seq<ScheduledTask>): Option<int>
  {
    if tasks == [] then Some(0)
    else Add(TotalMinutes(tasks[..|tasks| - 1]), Minutes(tasks[|tasks| - 1]))
  }

  /** The total is NaN exactly when some entry's times do not read as clock times. */
  lemma {:induction false} TotalMinutesNaN(tasks: seq<ScheduledTask>)
    ensures TotalMinutes(tasks).None? <==> exists i :: 0 <= i < |tasks| && Minutes(tasks[i]).None?
  {
    if tasks != [] {
      var init := tasks[..|tasks| - 1];
      TotalMinutesNaN(init);
      if TotalMinutes(init).None? {
        var i :| 0 <= i < |init| && Minutes(init[i]).None?;
        assert tasks[i] == init[i];
      }
      if exists i :: 0 <= i < |tasks| && Minutes(tasks[i]).None? {
        var i :| 0 <= i < |tasks| && Minutes(tasks[i]).None?;
        if i < |init| {
          assert init[i] == tasks[i];
        }
      }
    }
  }

  /** `Math.round(total / (8 * 60) * 100)`: the integer nearest to `100 * total / 480`,
      halves rounded up. */
  function RoundPercent(total: int): (r: int)
    ensures 24 * (2 * r - 1) <= 10 * total < 24 * (2 * r + 1)
  {
    (10 * total + 24) / 48
  }

  /** `Math.min(Math.round(...), 100)`; NaN stays NaN. */
  function LoadPercentage(total: Option<int>): (r: Option<int>)
    ensures r.Some? <==> total.Some?
    ensures r.Some? ==> r.value <= 100 && (total.value >= 0 ==> r.value >= 0)
  {
    match total
    case None => None
    case Some(t) => Some(if RoundPercent(t) < 100 then RoundPercent(t) else 100)
  }

  /** The load shown for a date. */
  function DailyLoad(schedule: seq<ScheduledTask>, date: string): Option<int>
  {
    LoadPercentage(TotalMinutes(TasksForDate(schedule, date)))
  }

  /** The load is full from 478 minutes on (99.58 rounds to 100) and below 100 before. */
  lemma LoadFull(total: int)
    ensures LoadPercentage(Some(total)) == Some(100) <==> total >= 478
  {
    var r := RoundPercent(total);
    if total >= 478 {
      assert r >= 100;
    } else {
      assert r < 100;
    }
  }

  /** A day without entries has load 0. */
  lemma {:induction false} EmptyDayLoad(schedule: seq<ScheduledTask>, date: string)
    requires forall e :: e in schedule ==> e.date != date
    ensures TasksForDate(schedule, date) == [] && DailyLoad(schedule, date) == Some(0)
  {
    if schedule != [] {
      var init := schedule[..|schedule| - 1];
      assert forall e :: e in init ==> e in schedule;
      EmptyDayLoad(init, date);
      assert schedule[|schedule| - 1] in schedule;
    }
    assert TotalMinutes([]) == Some(0);
    assert RoundPercent(0) == 0;
    assert LoadPercentage(Some(0)) == Some(0);
  }

  /** For an entry the scheduler made from a flexible task whose duration reads as
      `d` minutes, the term of the reduce is exactly `d`. */
  lemma FlexibleMinutes(cycleDay: int, t: Task, index: nat, week: seq<string>, s: ScheduledTask)
    requires |week| == WeekDays && s == ScheduleFlexible(cycleDay, t, index, week)
    requires ClockMinutes(t.duration).Some?
    ensures Minutes(s) == Some(ClockMinutes(t.duration).value)
  {
    var d := ClockMinutes(t.duration).value;
    FlexibleTimes(cycleDay, t, index, week, s, d);
    MinutesBetween(s, StartMinutes(s.phase, index), d);
  }

  /** An entry whose times read as `a` and `a + d` contributes `d`. */
  lemma MinutesBetween(s: ScheduledTask, a: nat, d: nat)
    requires ClockMinutes(s.startTime) == Some(a)
    requires ClockMinutes(s.endTime).Some? && ClockMinutes(s.endTime).value == a + d
    ensures Minutes(s) == Some(d)
  {
  }
}
