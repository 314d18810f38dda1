/** Saving single tasks on IPFS (src/utils/taskStorage.ts): each task is encrypted
    and pinned on its own, with a prompt describing it, and its location can be
    kept in the browser under a per-task key. */
module TaskStorage {
  import opened Wrappers
  import opened Bytes
  import opened Json
  import opened JsText
  import opened Types
  import AesGcm
  import Encryption
  import Ipfs
  import SupabaseTables
  import SupabaseStorage
  import opened SecureStorage
  import opened WebStorage

  const TaskPrefix := "Error al guardar tarea en IPFS: "
  const TaskMetadataKeyPrefix := "task-metadata-"

  datatype TaskStorageResult = TaskStorageResult(cid: string, size: int, aesKey: string, taskId: string,
                                                 iv: string, tag: string, supabaseId: Option<string>)

  // ---- the prompt ----

  const PromptHead := "Tarea del usuario " + "para el día "
  const PromptHeadEnd := " del ciclo menstrual:"
  const PromptClosing := "Esta tarea debe " + "ser considerada " + "al generar el " + "horario optimizado " +
                         "para el ciclo " + "menstrual del usuario."

  /** The thirteen lines of the prompt; a line whose condition fails is empty. */
  function PromptLines(task: Task, cycleDay: int): (ls: seq<string>)
  {
    [ PromptHead + IntToString(cycleDay) + PromptHeadEnd,
      "- Título: " + task.title,
      "- Categoría: " + task.category,
      "- Tipo: " + (if task.isFixed then "Fija" else "Flexible"),
      "- Duración: " + task.duration,
      if task.isFixed && Present(task.date) then "- Fecha: " + task.date.value else "",
      if task.isFixed && Present(task.startTime) then "- Hora de inicio: " + task.startTime.value else "",
      if task.isFixed && Present(task.endTime) then "- Hora de fin: " + task.endTime.value else "",
      if !task.isFixed && Present(task.deadline) then "- Fecha límite: " + task.deadline.value else "",
      if Holds(task.repeatsWeekly) then "- Se repite semanalmente" else "",
      if Holds(task.isProject) then "- Es un proyecto" else "",
      "",
      PromptClosing ]
  }

  /** Lines joined with line feeds, as a multi-line template literal writes them. */
  function JoinLines(ls: seq<string>): string
    requires |ls| >= 1
  {
    if |ls| == 1 then ls[0] else ls[0] + "\n" + JoinLines(ls[1..])
  }

  /** `generateTaskPrompt` */
  function GenerateTaskPrompt(task: Task, cycleDay: int): string
  {
    JoinLines(PromptLines(task, cycleDay))
  }

  /** Splitting joined lines at line feeds gives the lines back, when none of them
      holds a line feed itself. */
  lemma {:induction false} SplitJoinLines(ls: seq<string>)
    requires |ls| >= 1
    requires forall i :: 0 <= i < |ls| ==> '\n' !in ls[i]
    ensures Split(JoinLines(ls), '\n') == ls
  {
    if |ls| == 1 {
      SplitNoSep(ls[0], '\n');
    } else {
      SplitJoinLines(ls[1..]);
      SplitAtFirst(ls[0], '\n', JoinLines(ls[1..]));
      assert ls[0] + "\n" + JoinLines(ls[1..]) == ls[0] + ['\n'] + JoinLines(ls[1..]);
      assert [ls[0]] + ls[1..] == ls;
    }
  }

  predicate NoLineFeed(s: Option<string>)
  {
    s.Some? ==> '\n' !in s.value
  }

  /** The task's texts are single lines. */
  predicate SingleLine(task: Task)
  {
    && '\n' !in task.title && '\n' !in task.category && '\n' !in task.duration
    && NoLineFeed(task.date) && NoLineFeed(task.startTime) && NoLineFeed(task.endTime) && NoLineFeed(task.deadline)
  }

  /** The prompt of a task whose texts are single lines reads as its thirteen lines,
      with the title and the type, and the weekly and project lines only when those
      flags are set. */
  lemma PromptLayout(task: Task, cycleDay: int)
    requires SingleLine(task)
    ensures var ls := Split(GenerateTaskPrompt(task, cycleDay), '\n');
      && |ls| == 13
      && ls[1] == "- Título: " + task.title
      && ls[3] == "- Tipo: " + (if task.isFixed then "Fija" else "Flexible")
      && (ls[9] != "" <==> Holds(task.repeatsWeekly))
      && (ls[10] != "" <==> Holds(task.isProject))
  {
    PromptSplits(task, cycleDay);
    LineFlags(task, cycleDay);
  }

  lemma LineFlags(task: Task, cycleDay: int)
    ensures var ls := PromptLines(task, cycleDay);
      && |ls| == 13
      && ls[1] == "- Título: " + task.title
      && ls[3] == "- Tipo: " + (if task.isFixed then "Fija" else "Flexible")
      && (ls[9] != "" <==> Holds(task.repeatsWeekly))
      && (ls[10] != "" <==> Holds(task.isProject))
  {
  }

  /** The date, start and end lines appear only for a fixed task that has the
      field, and the deadline line only for a flexible task that has one. */
  lemma PromptSlots(task: Task, cycleDay: int)
    requires SingleLine(task)
    ensures var ls := Split(GenerateTaskPrompt(task, cycleDay), '\n');
      && |ls| == 13
      && (ls[5] != "" <==> task.isFixed && Present(task.date))
      && (ls[6] != "" <==> task.isFixed && Present(task.startTime))
      && (ls[7] != "" <==> task.isFixed && Present(task.endTime))
      && (ls[8] != "" <==> !task.isFixed && Present(task.deadline))
  {
    PromptSplits(task, cycleDay);
    LineSlots(task, cycleDay);
  }

  lemma LineSlots(task: Task, cycleDay: int)
    ensures var ls := PromptLines(task, cycleDay);
      && |ls| == 13
      && (ls[5] != "" <==> task.isFixed && Present(task.date))
      && (ls[6] != "" <==> task.isFixed && Present(task.startTime))
      && (ls[7] != "" <==> task.isFixed && Present(task.endTime))
      && (ls[8] != "" <==> !task.isFixed && Present(task.deadline))
  {
  }

  /** Splitting the prompt of a single-line task at line feeds gives its lines. */
  lemma PromptSplits(task: Task, cycleDay: int)
    requires SingleLine(task)
    ensures Split(GenerateTaskPrompt(task, cycleDay), '\n') == PromptLines(task, cycleDay)
  {
    PromptLinesSingle(task, cycleDay);
    SplitJoinLines(PromptLines(task, cycleDay));
  }

  lemma PromptLinesSingle(task: Task, cycleDay: int)
    requires SingleLine(task)
    ensures forall i :: 0 <= i < |PromptLines(task, cycleDay)| ==> '\n' !in PromptLines(task, cycleDay)[i]
  {
    HeadLinesSingle(task, cycleDay);
    SlotLinesSingle(task, cycleDay);
    ClosingSingleLine();
    var ls := PromptLines(task, cycleDay);
    assert '\n' !in ls[9] && '\n' !in ls[10] && '\n' !in ls[11] && '\n' !in ls[12];
  }

  lemma HeadLinesSingle(task: Task, cycleDay: int)
    requires SingleLine(task)
    ensures var ls := PromptLines(task, cycleDay);
      '\n' !in ls[0] && '\n' !in ls[1] && '\n' !in ls[2] && '\n' !in ls[3] && '\n' !in ls[4]
  {
    FirstLineSingle(cycleDay);
  }

  lemma FirstLineSingle(cycleDay: int)
    ensures '\n' !in PromptHead + IntToString(cycleDay) + PromptHeadEnd
  {
    if cycleDay < 0 {
      DigitsValueOfNatToString(-cycleDay);
    } else {
      DigitsValueOfNatToString(cycleDay);
    }
    assert '\n' !in IntToString(cycleDay);
    HeadSingle();
  }

  lemma HeadSingle()
    ensures '\n' !in PromptHead && '\n' !in PromptHeadEnd
  {
  }

  lemma SlotLinesSingle(task: Task, cycleDay: int)
    requires SingleLine(task)
    ensures var ls := PromptLines(task, cycleDay);
      '\n' !in ls[5] && '\n' !in ls[6] && '\n' !in ls[7] && '\n' !in ls[8]
  {
  }

  lemma ClosingSingleLine()
    ensures '\n' !in PromptClosing
  {
  }

  // ---- saving one task ----

  /** What `saveTaskToIPFS` encrypts: this task alone, no schedule, and its prompt. */
  function TaskInput(userId: string, task: Task, cycleDay: int): Encryption.EncryptionInput
  {
    Encryption.EncryptionInput(userId, UserDataJson(UserData(cycleDay, [task], [])), GenerateTaskPrompt(task, cycleDay))
  }

  /** `saveTaskToIPFS` up to the Supabase step, once the key and IV are drawn and the
      Pinata client's state is known. */
  function TaskWith(gcm: AesGcm.Gcm, codec: Codec, key: seq<uint8>, iv: seq<uint8>,
                    jwt: string, loaded: bool, sdkImport: Ipfs.SdkImport, pin: seq<uint8> -> Ipfs.PinReply,
                    userId: string, task: Task, cycleDay: int): Result<TaskStorageResult>
    requires AesGcm.Lawful(gcm)
  {
    match SealAndPin(gcm, codec, key, iv, jwt, loaded, sdkImport, pin, TaskInput(userId, task, cycleDay))
    case Err(m) => Err(TaskPrefix + m)
    case Ok(s) => Ok(TaskStorageResult(s.cid, s.size, s.aesKey, task.id, s.iv, s.tag, None))
  }

  /** A task save is the shared seal-and-pin step of `saveUserDataSecurely` on the
      task's input: it succeeds exactly when that step does, keeps its location and
      key material and adds the task's id; a failure carries the task prefix over
      the encryption's or the upload's message. */
  lemma TaskResultParts(gcm: AesGcm.Gcm, codec: Codec, key: seq<uint8>, iv: seq<uint8>,
                        jwt: string, loaded: bool, sdkImport: Ipfs.SdkImport, pin: seq<uint8> -> Ipfs.PinReply,
                        userId: string, task: Task, cycleDay: int)
    requires AesGcm.Lawful(gcm)
    ensures var t := TaskWith(gcm, codec, key, iv, jwt, loaded, sdkImport, pin, userId, task, cycleDay);
      var p := SealAndPin(gcm, codec, key, iv, jwt, loaded, sdkImport, pin, TaskInput(userId, task, cycleDay));
      && (t.Ok? <==> p.Ok?)
      && (t.Ok? ==>
            && t.value.cid == p.value.cid && t.value.size == p.value.size && t.value.aesKey == p.value.aesKey
            && t.value.iv == p.value.iv && t.value.tag == p.value.tag
            && t.value.taskId == task.id && t.value.supabaseId.None?)
      && (t.Err? ==> t.msg == TaskPrefix + p.msg)
      && (t.Err? ==> TaskPrefix + Encryption.EncryptPrefix <= t.msg || TaskPrefix + Ipfs.UploadPrefix <= t.msg)
  {
    var input := TaskInput(userId, task, cycleDay);
    var p := SealAndPin(gcm, codec, key, iv, jwt, loaded, sdkImport, pin, input);
    SealAndPinErrors(gcm, codec, key, iv, jwt, loaded, sdkImport, pin, input);
    if p.Err? {
      PrefixUnder(TaskPrefix, Encryption.EncryptPrefix, p.msg);
      PrefixUnder(TaskPrefix, Ipfs.UploadPrefix, p.msg);
    }
  }

  lemma PrefixUnder(a: string, b: string, m: string)
    ensures b <= m ==> a + b <= a + m
  {
    if b <= m {
      assert a + m == a + b + m[|b|..];
    }
  }

  /** What one save does to the Pinata client: nothing when encryption fails, else the
      upload of the encrypted document, counted against the SDK's state. */
  twostate predicate Uploaded(rng: Encryption.CryptoRandom, gcm: AesGcm.Gcm, codec: Codec, pinata: Ipfs.Pinata,
                              userId: string, task: Task, cycleDay: int)
    requires AesGcm.Lawful(gcm)
    reads rng, pinata
  {
    var e := old(Encryption.EncryptWith(gcm, codec, Encryption.Window(rng.stream, rng.pos, AesGcm.KeyBytes),
                                        Encryption.Window(rng.stream, rng.pos + AesGcm.KeyBytes, AesGcm.IvBytes),
                                        TaskInput(userId, task, cycleDay)));
    && (e.Err? ==> pinata.uploads == old(pinata.uploads) && pinata.sdkLoaded == old(pinata.sdkLoaded)
                   && pinata.importAttempts == old(pinata.importAttempts))
    && (e.Ok? ==>
          && pinata.sdkLoaded == (old(pinata.sdkLoaded) || (pinata.jwt != "" && pinata.sdkImport.SdkLoaded?))
          && pinata.importAttempts == old(pinata.importAttempts) + (if pinata.jwt != "" && !old(pinata.sdkLoaded) then 1 else 0)
          && pinata.uploads == old(pinata.uploads) +
               (if pinata.jwt != "" && pinata.sdkLoaded
                then [Ipfs.UploadedFile(Ipfs.FileName, Ipfs.JsonMime, Ipfs.DocumentBytes(codec, UploadInputOf(e.value)))]
                else []))
  }

  /** What one save does to the Supabase tables and what it returns: the pure result
      `TaskWith`, plus a version row and its id when the database is configured and
      reachable; a failing database write leaves the tables and the result alone. */
  twostate predicate Recorded(rng: Encryption.CryptoRandom, gcm: AesGcm.Gcm, codec: Codec, pinata: Ipfs.Pinata,
                              db: SupabaseStorage.Supabase, userId: string, task: Task, cycleDay: int,
                              new r: Result<TaskStorageResult>)
    requires AesGcm.Lawful(gcm)
    reads rng, pinata, db
  {
    var s := old(TaskWith(gcm, codec, Encryption.Window(rng.stream, rng.pos, AesGcm.KeyBytes),
                          Encryption.Window(rng.stream, rng.pos + AesGcm.KeyBytes, AesGcm.IvBytes),
                          pinata.jwt, pinata.sdkLoaded, pinata.sdkImport, pinata.pin, userId, task, cycleDay));
    && (s.Ok? && db.configured && db.online ==>
          var uid := SupabaseTables.EnrolledId(old(db.users), old(db.nextUserId), userId);
          && (db.users, db.nextUserId) == SupabaseTables.Enroll(old(db.users), old(db.nextUserId), userId)
          && db.versions == SupabaseTables.SaveRow(old(db.versions), old(db.nextRowId), uid, s.value.cid,
                                                   SupabaseTables.KeyJson(db.codec, s.value.aesKey, s.value.iv, s.value.tag))
          && db.nextRowId == old(db.nextRowId) + 1
          && r == Ok(s.value.(supabaseId := Some(NatToString(old(db.nextRowId))))))
    && (s.Err? || !(db.configured && db.online) ==>
          && r == s
          && db.users == old(db.users) && db.nextUserId == old(db.nextUserId)
          && db.versions == old(db.versions) && db.nextRowId == old(db.nextRowId))
  }

  /** `saveTaskToIPFS` */
  method SaveTaskToIPFS(rng: Encryption.CryptoRandom, gcm: AesGcm.Gcm, codec: Codec, pinata: Ipfs.Pinata,
                        db: SupabaseStorage.Supabase, userId: string, task: Task, cycleDay: int)
    returns (r: Result<TaskStorageResult>)
    requires AesGcm.Lawful(gcm) && db.Valid()
    modifies rng, pinata, db
    ensures db.Valid()
    ensures r.Ok? ==> r.value.taskId == task.id
    ensures rng.pos == old(rng.pos) + AesGcm.KeyBytes + AesGcm.IvBytes
    ensures Uploaded(rng, gcm, codec, pinata, userId, task, cycleDay)
    ensures Recorded(rng, gcm, codec, pinata, db, userId, task, cycleDay, r)
  {
    var aiPrompt := GenerateTaskPrompt(task, cycleDay);
    var userData := UserDataJson(UserData(cycleDay, [task], []));
    var encrypted := Encryption.EncryptUserData(rng, gcm, codec, Encryption.EncryptionInput(userId, userData, aiPrompt));
    if encrypted.Err? {
      return Err(TaskPrefix + encrypted.msg);
    }
    var ipfsResult := pinata.UploadToIPFS(codec, Ipfs.IPFSUploadInput(encrypted.value.ciphertext, encrypted.value.iv,
                                                                      encrypted.value.tag));
    if ipfsResult.Err? {
      return Err(TaskPrefix + ipfsResult.msg);
    }
    var supabaseId: Option<string> := None;
    if db.configured {
      var supabaseResult := db.UpdateEncryptedData(userId, ipfsResult.value.cid, encrypted.value.aesKey,
                                                   encrypted.value.iv, encrypted.value.tag);
      if supabaseResult.Ok? {
        supabaseId := Some(NatToString(supabaseResult.value.id));
      }
    }
    r := Ok(TaskStorageResult(ipfsResult.value.cid, ipfsResult.value.size, encrypted.value.aesKey, task.id,
                              encrypted.value.iv, encrypted.value.tag, supabaseId));
  }

  // ---- saving many tasks ----

  /** `results` holds, in order, a result for some of `tasks`: each one carries the
      id of a task after the one before it. */
  predicate Picked(results: seq<TaskStorageResult>, tasks: seq<Task>)
    decreases |tasks|
  {
    if results == [] then true
    else if tasks == [] then false
    else
      || (results[|results| - 1].taskId == tasks[|tasks| - 1].id && Picked(results[..|results| - 1], tasks[..|tasks| - 1]))
      || Picked(results, tasks[..|tasks| - 1])
  }

  /** A batch never returns more results than tasks, and every result names one of
      the tasks. */
  lemma {:induction false} PickedFromTasks(results: seq<TaskStorageResult>, tasks: seq<Task>)
    requires Picked(results, tasks)
    ensures |results| <= |tasks|
    ensures forall k :: 0 <= k < |results| ==> exists j :: 0 <= j < |tasks| && tasks[j].id == results[k].taskId
    decreases |tasks|
  {
    if results != [] {
      var n, m := |results| - 1, |tasks| - 1;
      if results[n].taskId == tasks[m].id && Picked(results[..n], tasks[..m]) {
        PickedFromTasks(results[..n], tasks[..m]);
        forall k | 0 <= k < |results| ensures exists j :: 0 <= j < |tasks| && tasks[j].id == results[k].taskId {
          if k < n {
            var j :| 0 <= j < m && tasks[..m][j].id == results[..n][k].taskId;
            assert tasks[j].id == results[k].taskId;
          } else {
            assert tasks[m].id == results[k].taskId;
          }
        }
      } else {
        PickedFromTasks(results, tasks[..m]);
        forall k | 0 <= k < |results| ensures exists j :: 0 <= j < |tasks| && tasks[j].id == results[k].taskId {
          var j :| 0 <= j < m && tasks[..m][j].id == results[k].taskId;
          assert tasks[j].id == results[k].taskId;
        }
      }
    }
  }

  /** The stream position at which turn `i` of a batch draws its key: every turn
      draws a 32-byte key and a 12-byte IV. */
  function TurnStart(pos0: nat, i: nat): nat
  {
    pos0 + i * 44
  }

  /** The save of one task as far as the stream position `pos` and the Pinata
      client decide it: the key and IV are the next bytes of the stream. */
  function TurnWith(gcm: AesGcm.Gcm, codec: Codec, stream: nat -> uint8, pos: nat,
                    jwt: string, loaded: bool, sdkImport: Ipfs.SdkImport, pin: seq<uint8> -> Ipfs.PinReply,
                    userId: string, task: Task, cycleDay: int): (r: Result<TaskStorageResult>)
    requires AesGcm.Lawful(gcm)
    ensures r.Ok? ==> r.value.taskId == task.id && r.value.supabaseId.None?
  {
    TaskWith(gcm, codec, Encryption.Window(stream, pos, AesGcm.KeyBytes),
             Encryption.Window(stream, pos + AesGcm.KeyBytes, AesGcm.IvBytes),
             jwt, loaded, sdkImport, pin, userId, task, cycleDay)
  }

  /** Whether the SDK was loaded before a turn does not change the turn's result
      when the import succeeds (it is loaded on demand) or when it stays as it was. */
  lemma LoadedIrrelevant(gcm: AesGcm.Gcm, codec: Codec, stream: nat -> uint8, p1: nat, p2: nat,
                         jwt: string, l1: bool, l2: bool, sdkImport: Ipfs.SdkImport, pin: seq<uint8> -> Ipfs.PinReply,
                         userId: string, task: Task, cycleDay: int)
    requires AesGcm.Lawful(gcm)
    requires p1 == p2
    requires sdkImport.SdkLoaded? || l1 == l2
    ensures TurnWith(gcm, codec, stream, p1, jwt, l1, sdkImport, pin, userId, task, cycleDay)
         == TurnWith(gcm, codec, stream, p2, jwt, l2, sdkImport, pin, userId, task, cycleDay)
  {
  }

  /** The save of a task at a stream position, for one Pinata client state. */
  function Turner(gcm: AesGcm.Gcm, codec: Codec, stream: nat -> uint8,
                  jwt: string, loaded: bool, sdkImport: Ipfs.SdkImport, pin: seq<uint8> -> Ipfs.PinReply,
                  userId: string, cycleDay: int): (turn: (nat, Task) -> Result<TaskStorageResult>)
    requires AesGcm.Lawful(gcm)
    ensures forall p, t :: turn(p, t) == TurnWith(gcm, codec, stream, p, jwt, loaded, sdkImport, pin, userId, t, cycleDay)
  {
    (p: nat, t: Task) => TurnWith(gcm, codec, stream, p, jwt, loaded, sdkImport, pin, userId, t, cycleDay)
  }

  /** The outcomes of a batch, one per task: task `j` is saved with the key and IV
      drawn at `TurnStart(pos, j)`. */
  function Turns(turn: (nat, Task) -> Result<TaskStorageResult>, pos: nat, tasks: seq<Task>)
    : (r: seq<Result<TaskStorageResult>>)
    ensures |r| == |tasks|
  {
    seq(|tasks|, j requires 0 <= j < |tasks| => turn(TurnStart(pos, j), tasks[j]))
  }

  /** One more task adds one more outcome. */
  lemma TurnsStep(turn: (nat, Task) -> Result<TaskStorageResult>, pos: nat, tasks: seq<Task>, i: nat)
    requires i < |tasks|
    ensures Turns(turn, pos, tasks[..i + 1]) == Turns(turn, pos, tasks[..i]) + [turn(TurnStart(pos, i), tasks[i])]
  {
    var longer, shorter := Turns(turn, pos, tasks[..i + 1]), Turns(turn, pos, tasks[..i]);
    forall j | 0 <= j < i
      ensures longer[j] == shorter[j]
    {
      assert tasks[..i + 1][j] == tasks[..i][j];
    }
    assert tasks[..i + 1][i] == tasks[i];
  }

  /** Every outcome of a batch of saves that succeeded names its task and has no
      row id yet. */
  lemma TurnsNameTasks(gcm: AesGcm.Gcm, codec: Codec, stream: nat -> uint8, pos: nat,
                       jwt: string, loaded: bool, sdkImport: Ipfs.SdkImport, pin: seq<uint8> -> Ipfs.PinReply,
                       userId: string, tasks: seq<Task>, cycleDay: int)
    requires AesGcm.Lawful(gcm)
    ensures var os := Turns(Turner(gcm, codec, stream, jwt, loaded, sdkImport, pin, userId, cycleDay), pos, tasks);
      forall j :: 0 <= j < |tasks| && os[j].Ok? ==> os[j].value.taskId == tasks[j].id && os[j].value.supabaseId.None?
  {
    var turn := Turner(gcm, codec, stream, jwt, loaded, sdkImport, pin, userId, cycleDay);
    var os := Turns(turn, pos, tasks);
    forall j | 0 <= j < |tasks| && os[j].Ok?
      ensures os[j].value.taskId == tasks[j].id && os[j].value.supabaseId.None?
    {
      assert os[j] == TurnWith(gcm, codec, stream, TurnStart(pos, j), jwt, loaded, sdkImport, pin, userId, tasks[j], cycleDay);
    }
  }

  /** The successful outcomes, in order; a failure contributes nothing. */
  function Successes(outcomes: seq<Result<TaskStorageResult>>): seq<TaskStorageResult>
  {
    if outcomes == [] then []
    else
      var n := |outcomes| - 1;
      Successes(outcomes[..n]) + (if outcomes[n].Ok? then [outcomes[n].value] else [])
  }

  lemma SuccessesAppend(outcomes: seq<Result<TaskStorageResult>>, o: Result<TaskStorageResult>)
    ensures Successes(outcomes + [o]) == Successes(outcomes) + (if o.Ok? then [o.value] else [])
  {
    assert (outcomes + [o])[..|outcomes|] == outcomes;
  }

  /** Every outcome is among the successes, in its place, exactly when every one
      succeeded; otherwise there are fewer successes than outcomes. */
  lemma {:induction false} SuccessesAll(outcomes: seq<Result<TaskStorageResult>>)
    ensures |Successes(outcomes)| <= |outcomes|
    ensures |Successes(outcomes)| == |outcomes| <==> forall j :: 0 <= j < |outcomes| ==> outcomes[j].Ok?
    ensures |Successes(outcomes)| == |outcomes| ==>
      forall j :: 0 <= j < |outcomes| ==> outcomes[j].Ok? && Successes(outcomes)[j] == outcomes[j].value
  {
    if outcomes != [] {
      var n := |outcomes| - 1;
      SuccessesAll(outcomes[..n]);
      assert forall j :: 0 <= j < n ==> outcomes[..n][j] == outcomes[j];
    }
  }

  /** The results with the ids of the version rows that were written for them: the
      `k`-th result got row `first + k` when the database recorded the saves. */
  function WithIds(rs: seq<TaskStorageResult>, recorded: bool, first: nat): (r: seq<TaskStorageResult>)
    ensures |r| == |rs|
  {
    if rs == [] then []
    else
      var n := |rs| - 1;
      WithIds(rs[..n], recorded, first) + [rs[n].(supabaseId := if recorded then Some(NatToString(first + n)) else None)]
  }

  /** The `k`-th result is the `k`-th success with row id `first + k`, or with no
      id when nothing was recorded; everything else about it is unchanged. */
  lemma {:induction false} WithIdsAt(rs: seq<TaskStorageResult>, recorded: bool, first: nat, k: nat)
    requires k < |rs|
    ensures WithIds(rs, recorded, first)[k] == rs[k].(supabaseId := if recorded then Some(NatToString(first + k)) else None)
  {
    var n := |rs| - 1;
    if k < n {
      WithIdsAt(rs[..n], recorded, first, k);
    }
  }

  lemma WithIdsAppend(rs: seq<TaskStorageResult>, x: TaskStorageResult, recorded: bool, first: nat)
    ensures WithIds(rs + [x], recorded, first)
         == WithIds(rs, recorded, first) + [x.(supabaseId := if recorded then Some(NatToString(first + |rs|)) else None)]
  {
    assert (rs + [x])[..|rs|] == rs;
  }

  /** The outcomes of one more task end with the outcome of its turn, whatever the
      SDK state was when the turn was taken (see `LoadedIrrelevant`). */
  lemma TurnsExtend(gcm: AesGcm.Gcm, codec: Codec, stream: nat -> uint8, pos0: nat, pos: nat,
                    jwt: string, loaded0: bool, loaded: bool, sdkImport: Ipfs.SdkImport, pin: seq<uint8> -> Ipfs.PinReply,
                    userId: string, tasks: seq<Task>, cycleDay: int, i: nat)
    requires AesGcm.Lawful(gcm) && i < |tasks|
    requires pos == TurnStart(pos0, i)
    requires sdkImport.SdkLoaded? || loaded == loaded0
    ensures var turn := Turner(gcm, codec, stream, jwt, loaded0, sdkImport, pin, userId, cycleDay);
      Turns(turn, pos0, tasks[..i + 1])
        == Turns(turn, pos0, tasks[..i]) + [TurnWith(gcm, codec, stream, pos, jwt, loaded, sdkImport, pin, userId, tasks[i], cycleDay)]
  {
    var turn := Turner(gcm, codec, stream, jwt, loaded0, sdkImport, pin, userId, cycleDay);
    LoadedIrrelevant(gcm, codec, stream, pos, TurnStart(pos0, i), jwt, loaded, loaded0,
                     sdkImport, pin, userId, tasks[i], cycleDay);
    TurnsStep(turn, pos0, tasks, i);
  }

  /** One turn of the batch on the results: when the turn's outcome is appended to
      the outcomes so far, the results extended by its success, if any, with the next
      row id, are the results of the longer batch. */
  lemma BatchStep(done: seq<Result<TaskStorageResult>>, turn: Result<TaskStorageResult>,
                  results: seq<TaskStorageResult>, recorded: bool, first: nat, rowId: nat,
                  saved: Option<TaskStorageResult>)
    requires recorded ==> rowId == first + |results|
    requires results == WithIds(Successes(done), recorded, first)
    requires saved == (if turn.Ok? then Some(turn.value.(supabaseId := if recorded then Some(NatToString(rowId)) else None))
                       else None)
    ensures results + (if saved.Some? then [saved.value] else []) == WithIds(Successes(done + [turn]), recorded, first)
  {
    SuccessesAppend(done, turn);
    var prior := Successes(done);
    if turn.Ok? {
      WithIdsAppend(prior, turn.value, recorded, first);
    } else {
      assert prior + [] == prior;
      assert results + [] == results;
    }
  }

  /** Picking the next task's result, or skipping it, keeps the results picked. */
  lemma PickedStep(results: seq<TaskStorageResult>, tasks: seq<Task>, i: nat, saved: Option<TaskStorageResult>)
    requires i < |tasks| && Picked(results, tasks[..i])
    requires saved.Some? ==> saved.value.taskId == tasks[i].id
    ensures Picked(results + (if saved.Some? then [saved.value] else []), tasks[..i + 1])
  {
    assert tasks[..i + 1][..i] == tasks[..i];
    if saved.Some? {
      var longer := results + [saved.value];
      assert longer[..|longer| - 1] == results;
      assert longer[|longer| - 1].taskId == tasks[..i + 1][i].id;
    } else {
      assert results + [] == results;
    }
  }

  /** One turn of `saveTasksToIPFS`'s loop: the save is attempted and a failure is
      caught (and only logged), so the caller sees either the result or nothing. */
  method TrySaveTask(rng: Encryption.CryptoRandom, gcm: AesGcm.Gcm, codec: Codec, pinata: Ipfs.Pinata,
                     db: SupabaseStorage.Supabase, userId: string, task: Task, cycleDay: int)
    returns (outcome: Result<TaskStorageResult>, saved: Option<TaskStorageResult>)
    requires AesGcm.Lawful(gcm) && db.Valid()
    modifies rng, pinata, db
    ensures db.Valid()
    ensures rng.pos == old(rng.pos) + AesGcm.KeyBytes + AesGcm.IvBytes
    ensures Uploaded(rng, gcm, codec, pinata, userId, task, cycleDay)
    ensures Recorded(rng, gcm, codec, pinata, db, userId, task, cycleDay, outcome)
    ensures saved == (if outcome.Ok? then Some(outcome.value) else None)
    ensures var s := old(TurnWith(gcm, codec, rng.stream, rng.pos, pinata.jwt, pinata.sdkLoaded,
                                  pinata.sdkImport, pinata.pin, userId, task, cycleDay));
      var recorded := db.configured && db.online;
      && saved == (if s.Ok? then Some(s.value.(supabaseId := if recorded then Some(NatToString(old(db.nextRowId))) else None))
                   else None)
      && db.nextRowId == old(db.nextRowId) + (if s.Ok? && recorded then 1 else 0)
    ensures pinata.sdkImport.SdkLoaded? || pinata.sdkLoaded == old(pinata.sdkLoaded)
  {
    outcome := SaveTaskToIPFS(rng, gcm, codec, pinata, db, userId, task, cycleDay);
    saved := if outcome.Ok? then Some(outcome.value) else None;
  }

  /** A turn of `saveTasksToIPFS`'s loop with the push: task `i` is saved and its
      result, if any, appended, so the results remain those of the tasks so far. */
  method SaveNext(rng: Encryption.CryptoRandom, gcm: AesGcm.Gcm, codec: Codec, pinata: Ipfs.Pinata,
                  db: SupabaseStorage.Supabase, userId: string, tasks: seq<Task>, i: nat, cycleDay: int,
                  results: seq<TaskStorageResult>, ghost pos0: nat, ghost loaded0: bool, ghost first: nat)
    returns (results': seq<TaskStorageResult>)
    requires AesGcm.Lawful(gcm) && db.Valid() && i < |tasks|
    requires rng.pos == TurnStart(pos0, i)
    requires pinata.sdkImport.SdkLoaded? || pinata.sdkLoaded == loaded0
    requires db.nextRowId == first + (if db.configured && db.online then |results| else 0)
    requires results == WithIds(Successes(Turns(Turner(gcm, codec, rng.stream, pinata.jwt, loaded0,
                                                       pinata.sdkImport, pinata.pin, userId, cycleDay), pos0, tasks[..i])),
                                db.configured && db.online, first)
    requires Picked(results, tasks[..i])
    modifies rng, pinata, db
    ensures db.Valid()
    ensures rng.pos == TurnStart(pos0, i + 1)
    ensures pinata.sdkImport.SdkLoaded? || pinata.sdkLoaded == loaded0
    ensures db.nextRowId == first + (if db.configured && db.online then |results'| else 0)
    ensures results' == WithIds(Successes(Turns(Turner(gcm, codec, rng.stream, pinata.jwt, loaded0,
                                                       pinata.sdkImport, pinata.pin, userId, cycleDay), pos0, tasks[..i + 1])),
                                db.configured && db.online, first)
    ensures Picked(results', tasks[..i + 1])
  {
    ghost var pos, loaded, rowId := rng.pos, pinata.sdkLoaded, db.nextRowId;
    var outcome, saved := TrySaveTask(rng, gcm, codec, pinata, db, userId, tasks[i], cycleDay);
    TurnsExtend(gcm, codec, rng.stream, pos0, pos, pinata.jwt, loaded0, loaded,
                pinata.sdkImport, pinata.pin, userId, tasks, cycleDay, i);
    BatchStep(Turns(Turner(gcm, codec, rng.stream, pinata.jwt, loaded0, pinata.sdkImport, pinata.pin, userId, cycleDay),
                    pos0, tasks[..i]),
              TurnWith(gcm, codec, rng.stream, pos, pinata.jwt, loaded, pinata.sdkImport, pinata.pin, userId, tasks[i], cycleDay),
              results, db.configured && db.online, first, rowId, saved);
    PickedStep(results, tasks, i, saved);
    results' := results;
    if saved.Some? {
      results' := results + [saved.value];
    }
  }

  /** `saveTasksToIPFS`: each task is saved in turn; a failed one is skipped. The
      results are exactly the successful saves in input order, each with the id of
      the version row written for it. */
  method SaveTasksToIPFS(rng: Encryption.CryptoRandom, gcm: AesGcm.Gcm, codec: Codec, pinata: Ipfs.Pinata,
                         db: SupabaseStorage.Supabase, userId: string, tasks: seq<Task>, cycleDay: int)
    returns (results: seq<TaskStorageResult>)
    requires AesGcm.Lawful(gcm) && db.Valid()
    modifies rng, pinata, db
    ensures db.Valid()
    ensures rng.pos == TurnStart(old(rng.pos), |tasks|)
    ensures results == WithIds(Successes(Turns(Turner(gcm, codec, rng.stream, pinata.jwt, old(pinata.sdkLoaded),
                                                       pinata.sdkImport, pinata.pin, userId, cycleDay), old(rng.pos), tasks)),
                               db.configured && db.online, old(db.nextRowId))
    ensures db.nextRowId == old(db.nextRowId) + (if db.configured && db.online then |results| else 0)
    ensures Picked(results, tasks)
  {
    results := [];
    var i := 0;
    while i < |tasks|
      invariant 0 <= i <= |tasks| && db.Valid()
      invariant rng.pos == TurnStart(old(rng.pos), i)
      invariant pinata.sdkImport.SdkLoaded? || pinata.sdkLoaded == old(pinata.sdkLoaded)
      invariant results == WithIds(Successes(Turns(Turner(gcm, codec, rng.stream, pinata.jwt, old(pinata.sdkLoaded),
                                                           pinata.sdkImport, pinata.pin, userId, cycleDay), old(rng.pos), tasks[..i])),
                                   db.configured && db.online, old(db.nextRowId))
      invariant db.nextRowId == old(db.nextRowId) + (if db.configured && db.online then |results| else 0)
      invariant Picked(results, tasks[..i])
    {
      results := SaveNext(rng, gcm, codec, pinata, db, userId, tasks, i, cycleDay,
                          results, old(rng.pos), old(pinata.sdkLoaded), old(db.nextRowId));
      i := i + 1;
    }
    assert tasks[..i] == tasks;
  }

  // ---- task metadata in the browser ----

  /** The `localStorage` key of one task's metadata. */
  function TaskMetadataKey(userId: string, taskId: string): string
  {
    TaskMetadataKeyPrefix + userId + "-" + taskId
  }

  /** Two tasks' keys differ whenever the user ids hold no `-` (a Privy id does not)
      and the pairs differ. */
  lemma TaskMetadataKeyInjective(u1: string, t1: string, u2: string, t2: string)
    requires '-' !in u1 && '-' !in u2
    ensures TaskMetadataKey(u1, t1) == TaskMetadataKey(u2, t2) ==> u1 == u2 && t1 == t2
  {
    if TaskMetadataKey(u1, t1) == TaskMetadataKey(u2, t2) {
      var k1, k2 := TaskMetadataKey(u1, t1), TaskMetadataKey(u2, t2);
      var n := |TaskMetadataKeyPrefix|;
      var r1, r2 := k1[n..], k2[n..];
      assert r1 == u1 + "-" + t1 && r2 == u2 + "-" + t2;
      DashAfter(u1, t1);
      DashAfter(u2, t2);
      if |u1| < |u2| {
        assert false;
      } else if |u2| < |u1| {
        assert false;
      }
      assert u1 == r1[..|u1|] == r2[..|u2|] == u2;
      assert t1 == r1[|u1| + 1..] == r2[|u2| + 1..] == t2;
    }
  }

  lemma DashAfter(u: string, t: string)
    ensures (u + "-" + t)[|u|] == '-'
  {
  }

  /** With `-` in a user id, two different (user, task) pairs share a key. */
  lemma TaskMetadataKeyCollision()
    ensures TaskMetadataKey("a-b", "c") == TaskMetadataKey("a", "b-c")
  {
    assert "a-b" + "-" + "c" == "a" + "-" + "b-c";
  }

  /** A task's key never names the user's IPFS metadata entry. */
  lemma TaskKeyNotUserKey(userId: string, taskId: string, other: string)
    ensures TaskMetadataKey(userId, taskId) != MetadataKey(other)
  {
    assert TaskMetadataKey(userId, taskId)[0] == 't';
    assert MetadataKey(other)[0] == 'i';
  }

  /** The object `JSON.stringify` receives for a task's metadata. */
  function TaskMetadataJson(userId: string, taskId: string, cid: string, size: int, now: string): Json
  {
    JObj([("userId", JStr(userId)), ("taskId", JStr(taskId)), ("ipfsCid", JStr(cid)), ("size", JNum(size)),
          ("createdAt", JStr(now)), ("updatedAt", JStr(now))])
  }

  /** `saveTaskMetadataLocally`; both timestamps are the one instant `now`. */
  method SaveTaskMetadataLocally(local: LocalStorage, codec: Codec, userId: string, taskId: string,
                                 cid: string, size: int, now: string)
    modifies local
    ensures local.items == old(local.items)[TaskMetadataKey(userId, taskId) :=
                                              codec.stringify(TaskMetadataJson(userId, taskId, cid, size, now))]
  {
    var metadata := TaskMetadataJson(userId, taskId, cid, size, now);
    var storageKey := TaskMetadataKeyPrefix + userId + "-" + taskId;
    local.SetItem(storageKey, codec.stringify(metadata));
  }

  /** `getTaskMetadataLocally`: the parsed entry, or `None` when it is missing, empty,
      unparsable or the text `null`. */
  function GetTaskMetadataLocally(local: LocalStorage, codec: Codec, userId: string, taskId: string): (r: Option<Json>)
    reads local
    ensures TaskMetadataKey(userId, taskId) !in local.items ==> r == None
    ensures r.Some? ==> r.value != JNull && codec.parse(local.items[TaskMetadataKey(userId, taskId)]) == r
  {
    ParseItem(local, codec, TaskMetadataKey(userId, taskId))
  }

  /** What was saved for a task is what is read back for it; the entries of other
      tasks of the same user and the user's IPFS metadata are untouched. */
  lemma TaskMetadataRoundTrip(codec: Codec, items: map<string, string>, userId: string, taskId: string,
                              otherTask: string, cid: string, size: int, now: string, local: LocalStorage)
    requires RoundTrips(codec) && '-' !in userId
    requires local.items == items[TaskMetadataKey(userId, taskId) :=
                                   codec.stringify(TaskMetadataJson(userId, taskId, cid, size, now))]
    ensures GetTaskMetadataLocally(local, codec, userId, taskId) == Some(TaskMetadataJson(userId, taskId, cid, size, now))
    ensures otherTask != taskId ==>
              var k := TaskMetadataKey(userId, otherTask);
              (k in local.items <==> k in items) && (k in items ==> local.items[k] == items[k])
    ensures var k := MetadataKey(userId);
      (k in local.items <==> k in items) && (k in items ==> local.items[k] == items[k])
  {
    ParseItemRoundTrip(local, codec, TaskMetadataKey(userId, taskId), TaskMetadataJson(userId, taskId, cid, size, now));
    TaskMetadataKeyInjective(userId, otherTask, userId, taskId);
    TaskKeyNotUserKey(userId, taskId, userId);
  }
}
