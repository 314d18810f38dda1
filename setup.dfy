/** The task-list edits of src/pages/Setup.tsx, which replace the `tasks` state
    wholesale, and the data `handleGenerate` saves. */
module Setup {
  import opened Wrappers
  import opened Types
  import opened JsText
  import CycleLogic

  /** The task `addTask` creates at time `now` (`Date.now().toString()` is its id). */
  function NewTask(now: nat): Task
  {
    Task(NatToString(now), "", "Entrepreneur", false, "01:00", None, None, None, None, Some(false), Some(false))
  }

  /** `[...tasks, newTask]` */
  function AddTask(tasks: seq<Task>, now: nat): (r: seq<Task>)
    ensures |r| == |tasks| + 1 && r[..|tasks|] == tasks
    ensures var t := r[|tasks|];
      && t.id == NatToString(now) && t.title == "" && t.category == "Entrepreneur" && !t.isFixed
      && t.duration == "01:00" && t.repeatsWeekly == Some(false) && t.isProject == Some(false)
  {
    tasks + [NewTask(now)]
  }

  /** `prev.map(t => (t.id === updated.id ? updated : t))` */
  function SaveTask(tasks: seq<Task>, updated: Task): (r: seq<Task>)
    ensures |r| == |tasks|
    ensures forall i :: 0 <= i < |tasks| ==> r[i] == (if tasks[i].id == updated.id then updated else tasks[i])
  {
    if tasks == [] then []
    else
      var t := tasks[|tasks| - 1];
      SaveTask(tasks[..|tasks| - 1], updated) + [if t.id == updated.id then updated else t]
  }

  /** `prev.filter(t => t.id !== id)` */
  function DeleteTask(tasks: seq<Task>, id: string): seq<Task>
  {
    if tasks == [] then []
    else
      var t := tasks[|tasks| - 1];
      DeleteTask(tasks[..|tasks| - 1], id) + (if t.id != id then [t] else [])
  }

  /** The filter removes exactly the tasks with the id. */
  lemma {:induction false} DeleteTaskMembers(tasks: seq<Task>, id: string)
    ensures forall t :: t in DeleteTask(tasks, id) <==> t in tasks && t.id != id
  {
    if tasks != [] {
      var init := tasks[..|tasks| - 1];
      DeleteTaskMembers(init, id);
      assert tasks == init + [tasks[|tasks| - 1]];
    }
  }

  /** The filter keeps the order: deleting from a concatenation deletes from each part. */
  lemma {:induction false} DeleteTaskAppend(a: seq<Task>, b: seq<Task>, id: string)
    ensures DeleteTask(a + b, id) == DeleteTask(a, id) + DeleteTask(b, id)
    decreases |b|
  {
    if b != [] {
      var init := b[..|b| - 1];
      DeleteTaskAppend(a, init, id);
      assert (a + b)[..|a + b| - 1] == a + init;
    } else {
      assert a + b == a;
    }
  }

  /** Deleting an id no task carries changes nothing. */
  lemma {:induction false} DeleteAbsent(tasks: seq<Task>, id: string)
    requires forall t :: t in tasks ==> t.id != id
    ensures DeleteTask(tasks, id) == tasks
  {
    if tasks != [] {
      var init := tasks[..|tasks| - 1];
      assert forall t :: t in init ==> t in tasks;
      DeleteAbsent(init, id);
      assert tasks[|tasks| - 1] in tasks;
      assert init + [tasks[|tasks| - 1]] == tasks;
    }
  }

  /** Deleting a task just added, under an id no other task has, restores the list. */
  lemma DeleteAfterAdd(tasks: seq<Task>, now: nat)
    requires forall t :: t in tasks ==> t.id != NatToString(now)
    ensures DeleteTask(AddTask(tasks, now), NatToString(now)) == tasks
  {
    var r := AddTask(tasks, now);
    assert r[..|tasks|] == tasks;
    DeleteAbsent(tasks, NatToString(now));
    assert DeleteTask(r, NatToString(now)) == DeleteTask(tasks, NatToString(now));
  }

  /** Saving and then deleting a task is the same as deleting it. */
  lemma {:induction false} DeleteAfterSave(tasks: seq<Task>, updated: Task)
    ensures DeleteTask(SaveTask(tasks, updated), updated.id) == DeleteTask(tasks, updated.id)
  {
    if tasks != [] {
      var init := tasks[..|tasks| - 1];
      DeleteAfterSave(init, updated);
      var r := SaveTask(tasks, updated);
      assert r[..|r| - 1] == SaveTask(init, updated);
    }
  }

  /** `handleGenerate`: the data handed to `saveUserData`, whose schedule is the
      scheduler's output for the current cycle day and tasks (`week` holds the
      seven dates from today on). */
  method HandleGenerate(cycleDay: int, tasks: seq<Task>, week: seq<string>) returns (data: UserData)
    requires |week| == CycleLogic.WeekDays
    ensures data.cycleDay == cycleDay && data.tasks == tasks
    ensures data.schedule == CycleLogic.SortSchedule(CycleLogic.Unsorted(cycleDay, tasks, week))
  {
    var schedule := CycleLogic.OrganizeTasksByCyclePhase(cycleDay, tasks, week);
    data := UserData(cycleDay, tasks, schedule);
  }

  /** What the mount effect does. */
  datatype Mounted = RedirectHome | Show(cycleDay: int, tasks: seq<Task>)

  /** The mount effect: away to "/" when Privy is ready and the user is not
      authenticated; otherwise the saved data, when present, replaces the
      cycle day and the tasks. */
  function Mount(ready: bool, authenticated: bool, saved: Option<UserData>, cycleDay: int, tasks: seq<Task>): (r: Mounted)
    ensures r == RedirectHome <==> ready && !authenticated
    ensures r.Show? && saved.Some? ==> r.cycleDay == saved.value.cycleDay && r.tasks == saved.value.tasks
    ensures r.Show? && saved.None? ==> r.cycleDay == cycleDay && r.tasks == tasks
  {
    if ready && !authenticated then RedirectHome
    else if saved.Some? then Show(saved.value.cycleDay, saved.value.tasks)
    else Show(cycleDay, tasks)
  }
}
