/** The cycle-phase scheduler (src/utils/cycleLogic.ts). The dates of the coming
    week, which the source reads from the clock, are passed in as `week`:
    `week[k]` is the ISO date `k` days from today. */
module CycleLogic {
  import opened Wrappers
  import opened JsText
  import opened Types

  const CycleDays := 28
  const WeekDays := 7
  /** What the template prints for a time computed from a NaN minute count. */
  const NaNClock := "NaN:NaN"

  /** `getCyclePhase` */
  function GetCyclePhase(day: int): (p: CyclePhase)
    ensures p == Menstrual <==> 1 <= day <= 5
    ensures p == Follicular <==> 6 <= day <= 13
    ensures p == Ovulatory <==> 14 <= day <= 17
    ensures p == Luteal <==> day <= 0 || day >= 18
  {
    if 1 <= day <= 5 then Menstrual
    else if 6 <= day <= 13 then Follicular
    else if 14 <= day <= 17 then Ovulatory
    else Luteal
  }

  /** `getPhaseDescription` */
  function GetPhaseDescription(p: CyclePhase): string
  {
    match p
    case Menstrual => "Rest & reflect – " + "time for gentle " + "self-care"
    case Follicular => "Energy rising – " + "best for deep " + "work and " + "learning"
    case Ovulatory => "Peak energy – " + "perfect for " + "important " + "meetings and " + "creative work"
    case Luteal => "Winding down – " + "focus on " + "wrapping up and " + "organizing"
  }

  /** `getPhaseColor` */
  function GetPhaseColor(p: CyclePhase): string
  {
    match p
    case Menstrual => "var(--color-menstrual)"
    case Follicular => "var(--color-follicular)"
    case Ovulatory => "var(--color-ovulatory)"
    case Luteal => "var(--color-luteal)"
  }

  /** Every phase has its own description: they start with different letters. */
  lemma DescriptionsDistinct(p: CyclePhase, q: CyclePhase)
    ensures p != q ==> GetPhaseDescription(p) != GetPhaseDescription(q)
  {
    if p != q {
      assert GetPhaseDescription(p)[0] != GetPhaseDescription(q)[0];
    }
  }

  /** Every phase has its own colour: the names differ right after `var(--color-`. */
  lemma ColorsDistinct(p: CyclePhase, q: CyclePhase)
    ensures p != q ==> GetPhaseColor(p) != GetPhaseColor(q)
  {
    if p != q {
      assert GetPhaseColor(p)[12] != GetPhaseColor(q)[12];
    }
  }

  /** The quotient of JavaScript's `%`, rounded toward zero. */
  function JsQuot(a: int, b: int): int
    requires b > 0
  {
    if a >= 0 then a / b else -((-a) / b)
  }

  /** `a % b` as JavaScript computes it: the result takes the sign of `a`. */
  function JsRem(a: int, b: int): (r: int)
    requires b > 0
    ensures -b < r < b && a == JsQuot(a, b) * b + r
    ensures a >= 0 ==> r >= 0
    ensures a <= 0 ==> r <= 0
  {
    if a >= 0 then a % b
    else
      var q := (-a) / b;
      assert -a == q * b + (-a) % b;
      assert -(q * b) == (-q) * b;
      -((-a) % b)
  }

  /** The cycle day `offset` days after `cycleDay`. */
  function TaskCycleDay(cycleDay: int, offset: int): int
  {
    JsRem(cycleDay + offset - 1, CycleDays) + 1
  }

  /** From a valid cycle day the result is again a day of the 28-day cycle, the one
      congruent to `cycleDay + offset`; within the cycle it is plain addition. */
  lemma TaskCycleDayRange(cycleDay: int, offset: nat)
    ensures cycleDay >= 1 ==> 1 <= TaskCycleDay(cycleDay, offset) <= CycleDays
    ensures TaskCycleDay(cycleDay, offset) - (cycleDay + offset) == -JsQuot(cycleDay + offset - 1, CycleDays) * CycleDays
    ensures cycleDay >= 1 && cycleDay + offset <= CycleDays ==> TaskCycleDay(cycleDay, offset) == cycleDay + offset
  {
  }

  /** The energy level and start hour a phase gets. */
  function Assign(p: CyclePhase): (r: (Energy, int))
    ensures r.0 == High <==> p == Follicular || p == Ovulatory
    ensures r.0 == Medium <==> p == Luteal
    ensures r.0 == Low <==> p == Menstrual
    ensures r.1 == (match r.0 case High => 9 case Medium => 10 case Low => 14)
  {
    match p
    case Follicular => (High, 9)
    case Ovulatory => (High, 9)
    case Luteal => (Medium, 10)
    case Menstrual => (Low, 14)
  }

  /** A fixed task goes on the schedule only with a date, a start and an end. */
  predicate HasSlot(t: Task)
  {
    Present(t.date) && Present(t.startTime) && Present(t.endTime)
  }

  /** The entry for a qualifying fixed task: its own date and times, the phase of
      the current cycle day and medium energy. */
  function ScheduleFixed(cycleDay: int, t: Task): ScheduledTask
    requires HasSlot(t)
  {
    ScheduledTask("scheduled-" + t.id, t.id, t.title, t.category, t.date.value, t.startTime.value, t.endTime.value,
                  GetCyclePhase(cycleDay), Medium, t.isProject, t.repeatsWeekly)
  }

  /** The end time printed for a task starting at `startMinutes`. */
  function EndTime(startMinutes: nat, duration: string): string
  {
    EndAt(startMinutes, ClockMinutes(duration))
  }

  /** The end time for a duration already read as minutes (`None` is NaN). */
  function EndAt(startMinutes: nat, duration: Option<nat>): string
  {
    match duration
    case Some(d) => FormatClock(startMinutes + d)
    case None => NaNClock
  }

  /** The entry for the flexible task at position `index` among the flexible tasks. */
  function ScheduleFlexible(cycleDay: int, t: Task, index: nat, week: seq<string>): ScheduledTask
    requires |week| == WeekDays
  {
    var offset := index % WeekDays;
    var phase := GetCyclePhase(TaskCycleDay(cycleDay, offset));
    var startMinutes := StartMinutes(phase, index);
    ScheduledTask("scheduled-" + t.id, t.id, t.title, t.category, week[offset],
                  FormatClock(startMinutes), EndTime(startMinutes, t.duration), phase, Assign(phase).0,
                  t.isProject, None)
  }

  /** The start, in minutes after midnight, of the flexible task at `index`: its
      phase's hour plus `index mod 3` half hours. */
  function StartMinutes(phase: CyclePhase, index: nat): (m: nat)
    ensures 9 * 60 <= m <= 14 * 60 + 60
  {
    Assign(phase).1 * 60 + (index % 3) * 30
  }

  /** A flexible entry copies the task's identity, is dated `index mod 7` days
      ahead, and takes the phase of that day with the phase's energy. */
  lemma FlexibleDay(cycleDay: int, t: Task, index: nat, week: seq<string>)
    requires |week| == WeekDays
    ensures var s := ScheduleFlexible(cycleDay, t, index, week);
      var day := TaskCycleDay(cycleDay, index % WeekDays);
      && s.id == "scheduled-" + t.id && s.taskId == t.id && s.title == t.title && s.category == t.category
      && s.date == week[index % WeekDays]
      && s.phase == GetCyclePhase(day) && (cycleDay >= 1 ==> 1 <= day <= CycleDays)
      && s.energyLevel == Assign(s.phase).0
  {
    TaskCycleDayRange(cycleDay, index % WeekDays);
  }

  /** The clock times of a flexible entry whose duration reads as `d` minutes: its
      start reads back as its phase's hour plus `index mod 3` half hours, and its
      end as that start plus `d`. */
  lemma FlexibleTimes(cycleDay: int, t: Task, index: nat, week: seq<string>, s: ScheduledTask, d: nat)
    requires |week| == WeekDays && s == ScheduleFlexible(cycleDay, t, index, week)
    requires ClockMinutes(t.duration) == Some(d)
    ensures ClockMinutes(s.startTime) == Some(StartMinutes(s.phase, index))
    ensures ClockMinutes(s.endTime).Some? && ClockMinutes(s.endTime).value == StartMinutes(s.phase, index) + d
  {
    FlexibleFields(cycleDay, t, index, week, s);
    EntryTimes(s, StartMinutes(s.phase, index), t.duration, d);
  }

  /** A flexible entry whose duration does not read as a clock time ends at
      `NaN:NaN`. */
  lemma FlexibleNaNEnd(cycleDay: int, t: Task, index: nat, week: seq<string>, s: ScheduledTask)
    requires |week| == WeekDays && s == ScheduleFlexible(cycleDay, t, index, week)
    requires ClockMinutes(t.duration).None?
    ensures s.endTime == NaNClock
  {
    FlexibleFields(cycleDay, t, index, week, s);
  }

  lemma FlexibleFields(cycleDay: int, t: Task, index: nat, week: seq<string>, s: ScheduledTask)
    requires |week| == WeekDays && s == ScheduleFlexible(cycleDay, t, index, week)
    ensures s.startTime == FormatClock(StartMinutes(s.phase, index))
    ensures s.endTime == EndTime(StartMinutes(s.phase, index), t.duration)
  {
  }

  /** An entry printed from `start` and a duration of `d` minutes reads back as
      `start` and `start + d`. */
  lemma EntryTimes(s: ScheduledTask, start: nat, duration: string, d: nat)
    requires s.startTime == FormatClock(start) && s.endTime == EndTime(start, duration)
    requires ClockMinutes(duration) == Some(d)
    ensures ClockMinutes(s.startTime) == Some(start)
    ensures ClockMinutes(s.endTime).Some? && ClockMinutes(s.endTime).value == start + d
  {
    ClockMinutesOfFormat(start);
    assert s.endTime == EndAt(start, Some(d));
    EndAtClock(start, d, s.endTime);
  }

  /** The printed end time reads back as the start plus the duration, and is
      `NaN:NaN` when the duration is not a clock time. */
  lemma EndClock(startMinutes: nat, duration: string)
    ensures ClockMinutes(duration).Some? ==>
              ClockMinutes(EndTime(startMinutes, duration)) == Some(startMinutes + ClockMinutes(duration).value)
    ensures ClockMinutes(duration).None? ==> EndTime(startMinutes, duration) == NaNClock
  {
    var d := ClockMinutes(duration);
    if d.Some? {
      EndAtClock(startMinutes, d.value, EndTime(startMinutes, duration));
    }
  }

  lemma EndAtClock(startMinutes: nat, d: nat, end: string)
    requires end == EndAt(startMinutes, Some(d))
    ensures ClockMinutes(end) == Some(startMinutes + d)
  {
    var m := startMinutes + d;
    assert end == FormatClock(m);
    ClockMinutesOfFormat(m);
  }

  /** `tasks.filter(t => t.isFixed)` */
  function Fixed(tasks: seq<Task>): seq<Task>
  {
    if tasks == [] then []
    else Fixed(tasks[..|tasks| - 1]) + (if tasks[|tasks| - 1].isFixed then [tasks[|tasks| - 1]] else [])
  }

  /** `tasks.filter(t => !t.isFixed)` */
  function Flexible(tasks: seq<Task>): seq<Task>
  {
    if tasks == [] then []
    else Flexible(tasks[..|tasks| - 1]) + (if !tasks[|tasks| - 1].isFixed then [tasks[|tasks| - 1]] else [])
  }

  /** The tasks that are fixed and qualify, in order. */
  function QualifyingFixed(tasks: seq<Task>): seq<Task>
  {
    if tasks == [] then []
    else
      var t := tasks[|tasks| - 1];
      QualifyingFixed(tasks[..|tasks| - 1]) + (if t.isFixed && HasSlot(t) then [t] else [])
  }

  /** The entries pushed by the loop over the fixed tasks. */
  function FixedPart(cycleDay: int, fixed: seq<Task>): seq<ScheduledTask>
  {
    if fixed == [] then []
    else
      var t := fixed[|fixed| - 1];
      FixedPart(cycleDay, fixed[..|fixed| - 1]) + (if HasSlot(t) then [ScheduleFixed(cycleDay, t)] else [])
  }

  /** The entries pushed by the loop over the flexible tasks. */
  function FlexiblePart(cycleDay: int, flexible: seq<Task>, week: seq<string>): (r: seq<ScheduledTask>)
    requires |week| == WeekDays
    ensures |r| == |flexible|
  {
    if flexible == [] then []
    else
      var n := |flexible| - 1;
      FlexiblePart(cycleDay, flexible[..n], week) + [ScheduleFlexible(cycleDay, flexible[n], n, week)]
  }

  /** The schedule before sorting. */
  function Unsorted(cycleDay: int, tasks: seq<Task>, week: seq<string>): seq<ScheduledTask>
    requires |week| == WeekDays
  {
    FixedPart(cycleDay, Fixed(tasks)) + FlexiblePart(cycleDay, Flexible(tasks), week)
  }

  // ---- the (date, startTime) order ----

  /** `a.localeCompare(b) <= 0`, read as code-unit order. */
  predicate StrLe(a: string, b: string)
    decreases |a|
  {
    a == [] || (b != [] && (a[0] < b[0] || (a[0] == b[0] && StrLe(a[1..], b[1..]))))
  }

  lemma {:induction false} StrLeTotal(a: string, b: string)
    ensures StrLe(a, b) || StrLe(b, a)
    decreases |a|
  {
    if a != [] && b != [] && a[0] == b[0] {
      StrLeTotal(a[1..], b[1..]);
    }
  }

  lemma {:induction false} StrLeTrans(a: string, b: string, c: string)
    requires StrLe(a, b) && StrLe(b, c)
    ensures StrLe(a, c)
    decreases |a|
  {
    if a != [] && a[0] == b[0] && b[0] == c[0] {
      StrLeTrans(a[1..], b[1..], c[1..]);
    }
  }

  lemma {:induction false} StrLeRefl(a: string)
    ensures StrLe(a, a)
    decreases |a|
  {
    if a != [] {
      StrLeRefl(a[1..]);
    }
  }

  lemma {:induction false} StrLeAntisym(a: string, b: string)
    requires StrLe(a, b) && StrLe(b, a)
    ensures a == b
    decreases |a|
  {
    if a != [] {
      StrLeAntisym(a[1..], b[1..]);
      assert a == [a[0]] + a[1..] && b == [b[0]] + b[1..];
    }
  }

  /** The comparator of the final sort does not put `y` before `x`. */
  predicate KeyLe(x: ScheduledTask, y: ScheduledTask)
  {
    (x.date != y.date && StrLe(x.date, y.date)) || (x.date == y.date && StrLe(x.startTime, y.startTime))
  }

  predicate SameKey(x: ScheduledTask, y: ScheduledTask)
  {
    x.date == y.date && x.startTime == y.startTime
  }

  lemma KeyLeTotal(x: ScheduledTask, y: ScheduledTask)
    ensures KeyLe(x, y) || KeyLe(y, x)
  {
    StrLeTotal(x.date, y.date);
    StrLeTotal(x.startTime, y.startTime);
  }

  lemma KeyLeTrans(x: ScheduledTask, y: ScheduledTask, z: ScheduledTask)
    requires KeyLe(x, y) && KeyLe(y, z)
    ensures KeyLe(x, z)
  {
    if x.date != y.date && y.date != z.date {
      StrLeTrans(x.date, y.date, z.date);
      if x.date == z.date { StrLeAntisym(x.date, y.date); }
    } else if x.date != y.date {
      assert StrLe(x.date, z.date);
    } else if y.date != z.date {
      assert StrLe(x.date, z.date);
    } else {
      StrLeTrans(x.startTime, y.startTime, z.startTime);
    }
  }

  /** Entries with the same key compare the same way against everything else. */
  lemma SameKeyCompares(x: ScheduledTask, y: ScheduledTask, z: ScheduledTask)
    requires SameKey(x, y)
    ensures KeyLe(z, x) == KeyLe(z, y)
  {
  }

  predicate Sorted(s: seq<ScheduledTask>)
  {
    forall i, j :: 0 <= i < j < |s| ==> KeyLe(s[i], s[j])
  }

  /** Places `x` after every entry that does not compare greater than it. */
  function InsertAfter(t: seq<ScheduledTask>, x: ScheduledTask): (r: seq<ScheduledTask>)
    ensures multiset(r) == multiset(t) + multiset{x}
    decreases |t|
  {
    if t == [] then [x]
    else if !KeyLe(t[0], x) then [x] + t
    else
      assert t == [t[0]] + t[1..];
      [t[0]] + InsertAfter(t[1..], x)
  }

  /** `sort` with the (date, startTime) comparator: a stable insertion sort. */
  function SortSchedule(s: seq<ScheduledTask>): (r: seq<ScheduledTask>)
    ensures multiset(r) == multiset(s)
  {
    if s == [] then []
    else
      assert s == s[..|s| - 1] + [s[|s| - 1]];
      InsertAfter(SortSchedule(s[..|s| - 1]), s[|s| - 1])
  }

  lemma {:induction false} InsertAfterSorted(t: seq<ScheduledTask>, x: ScheduledTask)
    requires Sorted(t)
    ensures Sorted(InsertAfter(t, x))
    decreases |t|
  {
    if t == [] {
    } else if !KeyLe(t[0], x) {
      KeyLeTotal(t[0], x);
      var r := [x] + t;
      forall i, j | 0 <= i < j < |r|
        ensures KeyLe(r[i], r[j])
      {
        if i == 0 && j > 1 {
          KeyLeTrans(x, t[0], t[j - 1]);
        }
      }
    } else {
      InsertAfterSorted(t[1..], x);
      var rest := InsertAfter(t[1..], x);
      var r := [t[0]] + rest;
      forall j | 0 <= j < |rest|
        ensures KeyLe(t[0], rest[j])
      {
        assert rest[j] in multiset(rest);
        assert rest[j] in multiset(t[1..]) || rest[j] == x;
        if rest[j] != x {
          var k :| 0 <= k < |t[1..]| && t[1..][k] == rest[j];
          assert t[k + 1] == rest[j];
        }
      }
      forall i, j | 0 <= i < j < |r|
        ensures KeyLe(r[i], r[j])
      {
        if i == 0 {
          assert r[j] == rest[j - 1];
        } else {
          assert r[i] == rest[i - 1] && r[j] == rest[j - 1];
        }
      }
    }
  }

  /** The sorted schedule is in (date, startTime) order. */
  lemma {:induction false} SortSorted(s: seq<ScheduledTask>)
    ensures Sorted(SortSchedule(s))
  {
    if s != [] {
      SortSorted(s[..|s| - 1]);
      InsertAfterSorted(SortSchedule(s[..|s| - 1]), s[|s| - 1]);
    }
  }

  /** The entries of `s` that share `k`'s date and start time, in order. */
  function WithKey(s: seq<ScheduledTask>, k: ScheduledTask): seq<ScheduledTask>
  {
    if s == [] then [] else (if SameKey(s[0], k) then [s[0]] else []) + WithKey(s[1..], k)
  }

  lemma {:induction false} WithKeyAppend(a: seq<ScheduledTask>, b: seq<ScheduledTask>, k: ScheduledTask)
    ensures WithKey(a + b, k) == WithKey(a, k) + WithKey(b, k)
  {
    if a == [] {
      assert a + b == b;
    } else {
      assert (a + b)[0] == a[0] && (a + b)[1..] == a[1..] + b;
      WithKeyAppend(a[1..], b, k);
    }
  }

  lemma {:induction false} WithKeyNone(t: seq<ScheduledTask>, k: ScheduledTask)
    requires forall e :: e in t ==> !SameKey(e, k)
    ensures WithKey(t, k) == []
  {
    if t != [] {
      assert t[0] in t;
      forall e | e in t[1..] ensures !SameKey(e, k) {
        assert e in t;
      }
      WithKeyNone(t[1..], k);
    }
  }

  /** Nothing in a sorted `t` shares the key of an `x` that goes before all of it. */
  lemma NoneWithKeyAfter(t: seq<ScheduledTask>, x: ScheduledTask, k: ScheduledTask)
    requires Sorted(t) && t != [] && !KeyLe(t[0], x) && SameKey(x, k)
    ensures WithKey(t, k) == []
  {
    forall e | e in t ensures !SameKey(e, k) {
      var i :| 0 <= i < |t| && t[i] == e;
      if i > 0 { assert KeyLe(t[0], t[i]); } else { StrLeRefl(e.startTime); }
      if SameKey(e, k) {
        SameKeyCompares(e, x, t[0]);
      }
    }
    WithKeyNone(t, k);
  }

  lemma {:induction false} InsertAfterKeeps(t: seq<ScheduledTask>, x: ScheduledTask, k: ScheduledTask)
    requires Sorted(t)
    ensures WithKey(InsertAfter(t, x), k) == WithKey(t, k) + (if SameKey(x, k) then [x] else [])
    decreases |t|
  {
    if t == [] {
    } else if !KeyLe(t[0], x) {
      InsertFirstKeeps(t, x, k);
    } else {
      assert Sorted(t[1..]);
      InsertAfterKeeps(t[1..], x, k);
      assert InsertAfter(t, x) == [t[0]] + InsertAfter(t[1..], x);
      assert [t[0]] + t[1..] == t;
      ConsKeeps(t[0], t[1..], InsertAfter(t[1..], x), k, if SameKey(x, k) then [x] else []);
    }
  }

  /** `x` goes before all of `t`: no entry of `t` shares its key. */
  lemma InsertFirstKeeps(t: seq<ScheduledTask>, x: ScheduledTask, k: ScheduledTask)
    requires Sorted(t) && t != [] && !KeyLe(t[0], x)
    ensures WithKey(InsertAfter(t, x), k) == WithKey(t, k) + (if SameKey(x, k) then [x] else [])
  {
    if SameKey(x, k) {
      NoneWithKeyAfter(t, x, k);
    }
    assert InsertAfter(t, x) == [x] + t;
    WithKeyAppend([x], t, k);
  }

  /** Putting the same head in front of two sequences keeps an extension between
      their entries with key `k`. */
  lemma ConsKeeps(h: ScheduledTask, t: seq<ScheduledTask>, rest: seq<ScheduledTask>, k: ScheduledTask,
                  extra: seq<ScheduledTask>)
    requires WithKey(rest, k) == WithKey(t, k) + extra
    ensures WithKey([h] + rest, k) == WithKey([h] + t, k) + extra
  {
    WithKeyAppend([h], rest, k);
    WithKeyAppend([h], t, k);
  }

  /** The sort is stable: entries with equal (date, startTime) keep their relative
      order, which makes its result the one any stable sort gives. */
  lemma {:induction false} SortStable(s: seq<ScheduledTask>, k: ScheduledTask)
    ensures WithKey(SortSchedule(s), k) == WithKey(s, k)
  {
    if s != [] {
      var init, last := s[..|s| - 1], s[|s| - 1];
      assert s == init + [last];
      SortStable(init, k);
      SortSorted(init);
      InsertAfterKeeps(SortSchedule(init), last, k);
      assert SortSchedule(s) == InsertAfter(SortSchedule(init), last);
      WithKeyAppend(init, [last], k);
      assert WithKey([last], k) == (if SameKey(last, k) then [last] else []) + WithKey([], k);
    }
  }

  // ---- what the organised schedule holds ----

  /** The two filters split the tasks by `isFixed`; the qualifying fixed tasks are
      the fixed ones with a date, a start and an end. */
  lemma {:induction false} FilterMembers(tasks: seq<Task>)
    ensures forall t :: t in Fixed(tasks) <==> t in tasks && t.isFixed
    ensures forall t :: t in Flexible(tasks) <==> t in tasks && !t.isFixed
    ensures forall t :: t in QualifyingFixed(tasks) <==> t in tasks && t.isFixed && HasSlot(t)
  {
    if tasks != [] {
      var init, last := tasks[..|tasks| - 1], tasks[|tasks| - 1];
      FilterMembers(init);
      assert tasks == init + [last];
    }
  }

  /** The fixed loop pushes one entry per qualifying fixed task, in order. */
  lemma {:induction false} FixedPartEntries(cycleDay: int, tasks: seq<Task>)
    ensures |FixedPart(cycleDay, Fixed(tasks))| == |QualifyingFixed(tasks)|
    ensures forall i :: 0 <= i < |QualifyingFixed(tasks)| ==>
              HasSlot(QualifyingFixed(tasks)[i]) &&
              FixedPart(cycleDay, Fixed(tasks))[i] == ScheduleFixed(cycleDay, QualifyingFixed(tasks)[i])
  {
    if tasks != [] {
      var init, last := tasks[..|tasks| - 1], tasks[|tasks| - 1];
      FixedPartEntries(cycleDay, init);
      if last.isFixed {
        var f := Fixed(init) + [last];
        assert Fixed(tasks) == f;
        assert f[..|f| - 1] == Fixed(init);
        assert FixedPart(cycleDay, f)
               == FixedPart(cycleDay, Fixed(init)) + (if HasSlot(last) then [ScheduleFixed(cycleDay, last)] else []);
        assert QualifyingFixed(tasks) == QualifyingFixed(init) + (if HasSlot(last) then [last] else []);
      } else {
        assert Fixed(tasks) == Fixed(init);
        assert QualifyingFixed(tasks) == QualifyingFixed(init);
      }
    }
  }

  /** The flexible loop pushes the entry for position `i` at position `i`. */
  lemma {:induction false} FlexiblePartAt(cycleDay: int, flexible: seq<Task>, week: seq<string>, i: nat)
    requires |week| == WeekDays && i < |flexible|
    ensures FlexiblePart(cycleDay, flexible, week)[i] == ScheduleFlexible(cycleDay, flexible[i], i, week)
    decreases |flexible|
  {
    var n := |flexible| - 1;
    if i < n {
      var init := flexible[..n];
      FlexiblePartAt(cycleDay, init, week, i);
      assert init[i] == flexible[i];
    }
  }

  lemma FlexiblePartEntries(cycleDay: int, flexible: seq<Task>, week: seq<string>)
    requires |week| == WeekDays
    ensures forall i :: 0 <= i < |flexible| ==>
              FlexiblePart(cycleDay, flexible, week)[i] == ScheduleFlexible(cycleDay, flexible[i], i, week)
  {
    forall i | 0 <= i < |flexible|
      ensures FlexiblePart(cycleDay, flexible, week)[i] == ScheduleFlexible(cycleDay, flexible[i], i, week)
    {
      FlexiblePartAt(cycleDay, flexible, week, i);
    }
  }

  /** Before sorting, every qualifying fixed task has its entry. */
  lemma FixedScheduled(cycleDay: int, tasks: seq<Task>, week: seq<string>)
    requires |week| == WeekDays
    ensures forall t :: t in tasks && t.isFixed && HasSlot(t) ==> ScheduleFixed(cycleDay, t) in Unsorted(cycleDay, tasks, week)
  {
    var u := Unsorted(cycleDay, tasks, week);
    var fixedPart := FixedPart(cycleDay, Fixed(tasks));
    var q := QualifyingFixed(tasks);
    FilterMembers(tasks);
    FixedPartEntries(cycleDay, tasks);
    forall t | t in tasks && t.isFixed && HasSlot(t) ensures ScheduleFixed(cycleDay, t) in u {
      var i :| 0 <= i < |q| && q[i] == t;
      assert u[i] == fixedPart[i];
    }
  }

  /** Before sorting, every flexible task has the entry for its position. */
  lemma FlexibleScheduled(cycleDay: int, tasks: seq<Task>, week: seq<string>)
    requires |week| == WeekDays
    ensures forall i :: 0 <= i < |Flexible(tasks)| ==>
              ScheduleFlexible(cycleDay, Flexible(tasks)[i], i, week) in Unsorted(cycleDay, tasks, week)
  {
    var u := Unsorted(cycleDay, tasks, week);
    var fixedPart, flexiblePart := FixedPart(cycleDay, Fixed(tasks)), FlexiblePart(cycleDay, Flexible(tasks), week);
    FlexiblePartEntries(cycleDay, Flexible(tasks), week);
    forall i | 0 <= i < |Flexible(tasks)| ensures ScheduleFlexible(cycleDay, Flexible(tasks)[i], i, week) in u {
      assert u[|fixedPart| + i] == flexiblePart[i];
    }
  }

  lemma FixedPartOrigins(cycleDay: int, tasks: seq<Task>)
    ensures forall e :: e in FixedPart(cycleDay, Fixed(tasks)) ==>
              exists t :: t in tasks && t.isFixed && HasSlot(t) && e == ScheduleFixed(cycleDay, t)
  {
    var fixedPart := FixedPart(cycleDay, Fixed(tasks));
    var q := QualifyingFixed(tasks);
    FilterMembers(tasks);
    FixedPartEntries(cycleDay, tasks);
    forall e | e in fixedPart
      ensures exists t :: t in tasks && t.isFixed && HasSlot(t) && e == ScheduleFixed(cycleDay, t)
    {
      var j :| 0 <= j < |fixedPart| && fixedPart[j] == e;
      assert q[j] in q;
    }
  }

  lemma FlexiblePartOrigins(cycleDay: int, tasks: seq<Task>, week: seq<string>)
    requires |week| == WeekDays
    ensures forall e :: e in FlexiblePart(cycleDay, Flexible(tasks), week) ==>
              exists i :: 0 <= i < |Flexible(tasks)| && e == ScheduleFlexible(cycleDay, Flexible(tasks)[i], i, week)
  {
    var flexiblePart := FlexiblePart(cycleDay, Flexible(tasks), week);
    FlexiblePartEntries(cycleDay, Flexible(tasks), week);
    forall e | e in flexiblePart
      ensures exists i :: 0 <= i < |Flexible(tasks)| && e == ScheduleFlexible(cycleDay, Flexible(tasks)[i], i, week)
    {
      var j :| 0 <= j < |flexiblePart| && flexiblePart[j] == e;
    }
  }

  /** Before sorting, every entry comes from a qualifying fixed task or from a
      flexible task at its position. */
  lemma UnsortedOrigins(cycleDay: int, tasks: seq<Task>, week: seq<string>)
    requires |week| == WeekDays
    ensures |Unsorted(cycleDay, tasks, week)| == |QualifyingFixed(tasks)| + |Flexible(tasks)|
    ensures forall e :: e in Unsorted(cycleDay, tasks, week) ==>
              (exists t :: t in tasks && t.isFixed && HasSlot(t) && e == ScheduleFixed(cycleDay, t)) ||
              (exists i :: 0 <= i < |Flexible(tasks)| && e == ScheduleFlexible(cycleDay, Flexible(tasks)[i], i, week))
  {
    FixedPartEntries(cycleDay, tasks);
    FixedPartOrigins(cycleDay, tasks);
    FlexiblePartOrigins(cycleDay, tasks, week);
  }

  /** The organised schedule holds exactly one entry per qualifying fixed task and
      one per flexible task, and nothing else, in (date, startTime) order. */
  lemma ScheduleContents(cycleDay: int, tasks: seq<Task>, week: seq<string>)
    requires |week| == WeekDays
    ensures var r := SortSchedule(Unsorted(cycleDay, tasks, week));
      && |r| == |QualifyingFixed(tasks)| + |Flexible(tasks)|
      && Sorted(r)
      && (forall t :: t in tasks && t.isFixed && HasSlot(t) ==> ScheduleFixed(cycleDay, t) in r)
      && (forall i :: 0 <= i < |Flexible(tasks)| ==> ScheduleFlexible(cycleDay, Flexible(tasks)[i], i, week) in r)
      && (forall e :: e in r ==>
            (exists t :: t in tasks && t.isFixed && HasSlot(t) && e == ScheduleFixed(cycleDay, t)) ||
            (exists i :: 0 <= i < |Flexible(tasks)| && e == ScheduleFlexible(cycleDay, Flexible(tasks)[i], i, week)))
  {
    var u := Unsorted(cycleDay, tasks, week);
    var r := SortSchedule(u);
    FixedScheduled(cycleDay, tasks, week);
    FlexibleScheduled(cycleDay, tasks, week);
    UnsortedOrigins(cycleDay, tasks, week);
    SortSorted(u);
    assert |r| == |multiset(r)| == |multiset(u)| == |u|;
    forall e ensures e in r <==> e in u {
      assert e in r <==> e in multiset(r);
      assert e in u <==> e in multiset(u);
    }
  }

  /** Every entry of the organised schedule is named after the task it came from. */
  lemma ScheduleIds(cycleDay: int, tasks: seq<Task>, week: seq<string>)
    requires |week| == WeekDays
    ensures forall e :: e in SortSchedule(Unsorted(cycleDay, tasks, week)) ==> e.id == "scheduled-" + e.taskId
  {
    ScheduleContents(cycleDay, tasks, week);
  }

  /** The week offset after one more flexible task. */
  lemma NextOffset(index: nat)
    ensures (index + 1) % WeekDays == if index % WeekDays + 1 >= WeekDays then 0 else index % WeekDays + 1
  {
  }

  /** One turn of the flexible loop of `organizeTasksByCyclePhase`: the task goes on
      the day `dayOffset` of the week, at the hour of that day's phase, staggered by
      half an hour per position. */
  method PlaceFlexible(cycleDay: int, task: Task, index: nat, dayOffset: nat, week: seq<string>)
    returns (entry: ScheduledTask)
    requires |week| == WeekDays && dayOffset == index % WeekDays
    ensures entry == ScheduleFlexible(cycleDay, task, index, week)
  {
    var taskCycleDay := TaskCycleDay(cycleDay, dayOffset);
    var taskPhase := GetCyclePhase(taskCycleDay);
    var energyLevel: Energy;
    var startHour: nat;
    if taskPhase == Follicular || taskPhase == Ovulatory {
      energyLevel, startHour := High, 9;
    } else if taskPhase == Luteal {
      energyLevel, startHour := Medium, 10;
    } else {
      energyLevel, startHour := Low, 14;
    }
    var startMinutes := startHour * 60 + (index % 3) * 30;
    entry := ScheduledTask("scheduled-" + task.id, task.id, task.title, task.category, week[dayOffset],
                           FormatClock(startMinutes), EndTime(startMinutes, task.duration),
                           taskPhase, energyLevel, task.isProject, None);
    assert (energyLevel, startHour) == Assign(taskPhase);
    assert startMinutes == StartMinutes(taskPhase, index);
  }

  /** The loop of `organizeTasksByCyclePhase` over the fixed tasks: a task with a
      date, a start and an end is pushed as it is, one without is dropped. */
  method ScheduleFixedTasks(cycleDay: int, fixedTasks: seq<Task>) returns (scheduled: seq<ScheduledTask>)
    ensures scheduled == FixedPart(cycleDay, fixedTasks)
  {
    scheduled := [];
    var i := 0;
    while i < |fixedTasks|
      invariant 0 <= i <= |fixedTasks|
      invariant scheduled == FixedPart(cycleDay, fixedTasks[..i])
    {
      var task := fixedTasks[i];
      if Present(task.date) && Present(task.startTime) && Present(task.endTime) {
        scheduled := scheduled + [ScheduledTask("scheduled-" + task.id, task.id, task.title, task.category,
                                                task.date.value, task.startTime.value, task.endTime.value,
                                                GetCyclePhase(cycleDay), Medium, task.isProject, task.repeatsWeekly)];
      }
      assert fixedTasks[..i + 1][..i] == fixedTasks[..i];
      i := i + 1;
    }
    assert fixedTasks[..i] == fixedTasks;
  }

  /** The loop of `organizeTasksByCyclePhase` over the flexible tasks: the day
      offset walks through the week and wraps after its seventh day. */
  method ScheduleFlexibleTasks(cycleDay: int, flexibleTasks: seq<Task>, week: seq<string>)
    returns (scheduled: seq<ScheduledTask>)
    requires |week| == WeekDays
    ensures scheduled == FlexiblePart(cycleDay, flexibleTasks, week)
  {
    scheduled := [];
    var dayOffset := 0;
    var index := 0;
    while index < |flexibleTasks|
      invariant 0 <= index <= |flexibleTasks|
      invariant dayOffset == index % WeekDays
      invariant scheduled == FlexiblePart(cycleDay, flexibleTasks[..index], week)
    {
      var task := flexibleTasks[index];
      var entry := PlaceFlexible(cycleDay, task, index, dayOffset, week);
      ghost var done := flexibleTasks[..index + 1];
      assert done[..index] == flexibleTasks[..index] && done[index] == task;
      assert FlexiblePart(cycleDay, done, week) == FlexiblePart(cycleDay, flexibleTasks[..index], week) + [entry];
      scheduled := scheduled + [entry];
      dayOffset := dayOffset + 1;
      if dayOffset >= WeekDays {
        dayOffset := 0;
      }
      NextOffset(index);
      index := index + 1;
    }
    assert flexibleTasks[..index] == flexibleTasks;
  }

  /** `organizeTasksByCyclePhase` */
  method OrganizeTasksByCyclePhase(cycleDay: int, tasks: seq<Task>, week: seq<string>) returns (r: seq<ScheduledTask>)
    requires |week| == WeekDays
    ensures r == SortSchedule(Unsorted(cycleDay, tasks, week))
  {
    var fixedTasks := Fixed(tasks);
    var flexibleTasks := Flexible(tasks);
    var fixedPart := ScheduleFixedTasks(cycleDay, fixedTasks);
    var flexiblePart := ScheduleFlexibleTasks(cycleDay, flexibleTasks, week);
    r := SortSchedule(fixedPart + flexiblePart);
  }
}
