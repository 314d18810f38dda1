/** The records of src/types/index.ts and the JSON objects `JSON.stringify` makes
    of them (members in declaration order; an absent optional member is left out). */
module Types {
  import opened Wrappers
  import opened Json

  datatype CyclePhase = Menstrual | Follicular | Ovulatory | Luteal
  datatype Energy = High | Medium | Low

  /** `duration` is "HH:MM"; the optional members are `undefined` when `None`. */
  datatype Task = Task(id: string, title: string, category: string, isFixed: bool, duration: string,
                       date: Option<string>, startTime: Option<string>, endTime: Option<string>,
                       deadline: Option<string>, repeatsWeekly: Option<bool>, isProject: Option<bool>)

  datatype ScheduledTask = ScheduledTask(id: string, taskId: string, title: string, category: string,
                                         date: string, startTime: string, endTime: string,
                                         phase: CyclePhase, energyLevel: Energy,
                                         isProject: Option<bool>, repeats: Option<bool>)

  datatype UserData = UserData(cycleDay: int, tasks: seq<Task>, schedule: seq<ScheduledTask>)

  /** JavaScript truthiness of an optional string member. */
  predicate Present(s: Option<string>)
  {
    s.Some? && s.value != ""
  }

  /** JavaScript truthiness of an optional boolean member. */
  predicate Holds(b: Option<bool>)
  {
    b == Some(true)
  }

  function PhaseName(p: CyclePhase): string
  {
    match p
    case Menstrual => "Menstrual"
    case Follicular => "Follicular"
    case Ovulatory => "Ovulatory"
    case Luteal => "Luteal"
  }

  function EnergyName(e: Energy): string
  {
    match e
    case High => "high"
    case Medium => "medium"
    case Low => "low"
  }

  function OptString(key: string, v: Option<string>): seq<(string, Json)>
  {
    if v.Some? then [(key, JStr(v.value))] else []
  }

  function OptBool(key: string, v: Option<bool>): seq<(string, Json)>
  {
    if v.Some? then [(key, JBool(v.value))] else []
  }

  function TaskJson(t: Task): Json
  {
    JObj([("id", JStr(t.id)), ("title", JStr(t.title)), ("category", JStr(t.category)),
          ("isFixed", JBool(t.isFixed)), ("duration", JStr(t.duration))]
         + OptString("date", t.date) + OptString("startTime", t.startTime) + OptString("endTime", t.endTime)
         + OptString("deadline", t.deadline) + OptBool("repeatsWeekly", t.repeatsWeekly)
         + OptBool("isProject", t.isProject))
  }

  function ScheduledJson(s: ScheduledTask): Json
  {
    JObj([("id", JStr(s.id)), ("taskId", JStr(s.taskId)), ("title", JStr(s.title)), ("category", JStr(s.category)),
          ("date", JStr(s.date)), ("startTime", JStr(s.startTime)), ("endTime", JStr(s.endTime)),
          ("phase", JStr(PhaseName(s.phase))), ("energyLevel", JStr(EnergyName(s.energyLevel)))]
         + OptBool("isProject", s.isProject) + OptBool("repeats", s.repeats))
  }

  function TasksJson(ts: seq<Task>): (r: seq<Json>)
    ensures |r| == |ts|
  {
    if ts == [] then [] else TasksJson(ts[..|ts| - 1]) + [TaskJson(ts[|ts| - 1])]
  }

  function ScheduleJson(ss: seq<ScheduledTask>): (r: seq<Json>)
    ensures |r| == |ss|
  {
    if ss == [] then [] else ScheduleJson(ss[..|ss| - 1]) + [ScheduledJson(ss[|ss| - 1])]
  }

  function UserDataJson(u: UserData): Json
  {
    JObj([("cycleDay", JNum(u.cycleDay)), ("tasks", JArr(TasksJson(u.tasks))), ("schedule", JArr(ScheduleJson(u.schedule)))])
  }
}
