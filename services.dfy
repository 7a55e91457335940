/**
 * The whole-list task operations (service/services.go): each one loads the complete task
 * list, changes it in memory and hands the whole list back to be written. Reading the file
 * and writing it are abstracted: the read is an outcome given as a parameter, decoding is the
 * codec's array decoder, and a write is observed as the list marshalled and written (by
 * `writeTaskList`, or by the same two calls inline in the append and the update) together
 * with the fault, if any, that the marshal or the write meets.
 */
module Services {
  import opened Wrappers
  import opened Models
  import opened Codec

  /** What reading the task file yields. */
  datatype ReadOutcome = NotExist | ReadError | Bytes(data: string)

  /** The failures the operations report; the wording of the Go messages is not kept. */
  datatype ServiceError = ReadFailed | UnmarshalFailed | DoesNotExist(id: int) | MarshalFailed | WriteFailed

  /** How the marshal and the write of a whole list turn out. */
  datatype StoreFault = NoStoreFault | MarshalFault | WriteFault

  /**
   * What an operation does to the file: the list it hands to `writeTaskList`, or to the
   * marshal and write it does inline (`None` when it returns before that point), and the error
   * it returns. A list handed over is not necessarily written: the marshal may fail first, and
   * the `StoreFault` given with the outcome says whether it did.
   */
  datatype Outcome = Outcome(written: Option<seq<Task>>, err: Option<ServiceError>)

  /**
   * `writeTaskList`: marshal the list and write it; the error is that of whichever step fails.
   * The contract is deliberately the fault-to-error table itself, one clause per fault; what
   * ties it to the operations is `WritesOnlyOnSuccess`.
   */
  function WriteTaskList(store: StoreFault): (r: Option<ServiceError>)
    ensures r.None? <==> store == NoStoreFault
    ensures store == MarshalFault ==> r == Some(MarshalFailed)
    ensures store == WriteFault ==> r == Some(WriteFailed)
  {
    match store
    case NoStoreFault => None
    case MarshalFault => Some(MarshalFailed)
    case WriteFault => Some(WriteFailed)
  }

  /**
   * Only the write itself can fail once it has been attempted, and nothing is written on a
   * path that returns an error before it.
   */
  predicate WritesOnlyOnSuccess(out: Outcome, store: StoreFault) {
    && (out.written.None? ==> out.err.Some?)
    && (out.written.Some? ==> out.err == WriteTaskList(store))
  }

  // ---------------------------------------------------------------------------------------
  // Loading

  /**
   * `GetAllTasks`: a missing or empty file is the empty list, a read error or an undecodable
   * file is an error, anything else is the decoded list.
   */
  function GetAllTasks(c: JsonCodec, read: ReadOutcome): (r: Result<seq<Task>, ServiceError>)
    ensures (read.NotExist? || read == Bytes([])) ==> r == Success([])
    ensures r.Failure? <==> read.ReadError? || (read.Bytes? && read.data != [] && c.decodeArray(read.data).None?)
    ensures r.Failure? ==> r.error == (if read.ReadError? then ReadFailed else UnmarshalFailed)
    ensures read.Bytes? && read.data != [] && c.decodeArray(read.data).Some? ==>
      r == Success(c.decodeArray(read.data).value)
  {
    match read
    case NotExist => Success([])
    case ReadError => Failure(ReadFailed)
    case Bytes(data) =>
      if |data| > 0 then
        match c.decodeArray(data)
        case None => Failure(UnmarshalFailed)
        case Some(ts) => Success(ts)
      else Success([])
  }

  // ---------------------------------------------------------------------------------------
  // Searching

  /** The index of the first task with id `id`, or -1 when there is none. */
  function FirstIndexOf(ts: seq<Task>, id: int): (k: int)
    ensures -1 <= k < |ts|
    ensures k == -1 <==> forall j :: 0 <= j < |ts| ==> ts[j].id != id
    ensures k >= 0 ==> ts[k].id == id && forall j :: 0 <= j < k ==> ts[j].id != id
  {
    if ts == [] then -1
    else if ts[0].id == id then 0
    else
      var r := FirstIndexOf(ts[1..], id);
      if r == -1 then -1 else r + 1
  }

  // ---------------------------------------------------------------------------------------
  // Adding

  /**
   * `AddTask`: the loaded list with the task appended, its id as the caller gave it and with
   * no check for a task that already has that id.
   */
  function AddTask(c: JsonCodec, read: ReadOutcome, task: Task, store: StoreFault): (out: Outcome)
    ensures WritesOnlyOnSuccess(out, store)
    ensures GetAllTasks(c, read).Failure? ==> out == Outcome(None, Some(GetAllTasks(c, read).error))
    ensures GetAllTasks(c, read).Success? ==>
      var ts := GetAllTasks(c, read).value;
      && out.written.Some?
      && |out.written.value| == |ts| + 1
      && out.written.value[..|ts|] == ts
      && out.written.value[|ts|] == task
  {
    match GetAllTasks(c, read)
    case Failure(e) => Outcome(None, Some(e))
    case Success(ts) => Outcome(Some(ts + [task]), WriteTaskList(store))
  }

  // ---------------------------------------------------------------------------------------
  // Updating

  /** The first task with the id, its description and update time replaced. */
  function Described(ts: seq<Task>, k: int, description: string, now: DateTime): (r: seq<Task>)
    requires 0 <= k < |ts|
    ensures |r| == |ts|
    ensures forall j :: 0 <= j < |ts| && j != k ==> r[j] == ts[j]
    ensures r[k] == Task(ts[k].id, description, ts[k].status, ts[k].createdAt, now)
  {
    ts[k := ts[k].(description := description, updatedAt := now)]
  }

  /**
   * `UpdateTask`: an empty list or a list without the id is an error and nothing is written;
   * otherwise only the first task with the id gets the new description and update time.
   */
  method UpdateTask(c: JsonCodec, read: ReadOutcome, id: int, description: string, now: DateTime, store: StoreFault)
    returns (out: Outcome)
    ensures WritesOnlyOnSuccess(out, store)
    ensures GetAllTasks(c, read).Failure? ==> out == Outcome(None, Some(GetAllTasks(c, read).error))
    ensures GetAllTasks(c, read).Success? ==>
      var ts := GetAllTasks(c, read).value;
      var k := FirstIndexOf(ts, id);
      && (k == -1 ==> out == Outcome(None, Some(DoesNotExist(id))))
      && (k >= 0 ==> out == Outcome(Some(Described(ts, k, description, now)), WriteTaskList(store)))
  {
    var loaded := GetAllTasks(c, read);
    if loaded.Failure? {
      return Outcome(None, Some(loaded.error));
    }
    var tasks := loaded.value;
    if |tasks| == 0 {
      return Outcome(None, Some(DoesNotExist(id)));
    }
    var taskExists := false;
    var i := 0;
    while i < |tasks|
      invariant 0 <= i <= |tasks|
      invariant !taskExists && tasks == loaded.value
      invariant forall j :: 0 <= j < i ==> tasks[j].id != id
    {
      if tasks[i].id == id {
        tasks := tasks[i := tasks[i].(description := description, updatedAt := now)];
        taskExists := true;
        break;
      }
      i := i + 1;
    }
    if !taskExists {
      return Outcome(None, Some(DoesNotExist(id)));
    }
    return Outcome(Some(tasks), WriteTaskList(store));
  }

  /** The first task with the id, its status and update time replaced. */
  function WithStatus(ts: seq<Task>, k: int, status: TaskStatus, now: DateTime): (r: seq<Task>)
    requires 0 <= k < |ts|
    ensures |r| == |ts|
    ensures forall j :: 0 <= j < |ts| && j != k ==> r[j] == ts[j]
    ensures r[k] == Task(ts[k].id, ts[k].description, status, ts[k].createdAt, now)
  {
    ts[k := ts[k].(status := status, updatedAt := now)]
  }

  /**
   * `UpdateTaskStatus`: a list without the id is an error and nothing is written; otherwise
   * only the first task with the id gets the new status and update time. The status is not
   * checked against the named ones.
   */
  method UpdateTaskStatus(c: JsonCodec, read: ReadOutcome, id: int, status: TaskStatus, now: DateTime, store: StoreFault)
    returns (out: Outcome)
    ensures WritesOnlyOnSuccess(out, store)
    ensures GetAllTasks(c, read).Failure? ==> out == Outcome(None, Some(GetAllTasks(c, read).error))
    ensures GetAllTasks(c, read).Success? ==>
      var ts := GetAllTasks(c, read).value;
      var k := FirstIndexOf(ts, id);
      && (k == -1 ==> out == Outcome(None, Some(DoesNotExist(id))))
      && (k >= 0 ==> out == Outcome(Some(WithStatus(ts, k, status, now)), WriteTaskList(store)))
  {
    var loaded := GetAllTasks(c, read);
    if loaded.Failure? {
      return Outcome(None, Some(loaded.error));
    }
    var tasks := loaded.value;
    var taskExists := false;
    var i := 0;
    while i < |tasks|
      invariant 0 <= i <= |tasks|
      invariant !taskExists && tasks == loaded.value
      invariant forall j :: 0 <= j < i ==> tasks[j].id != id
    {
      if tasks[i].id == id {
        taskExists := true;
        tasks := tasks[i := tasks[i].(status := status, updatedAt := now)];
        break;
      }
      i := i + 1;
    }
    if !taskExists {
      return Outcome(None, Some(DoesNotExist(id)));
    }
    return Outcome(Some(tasks), WriteTaskList(store));
  }

  /** Updates change no id: the first task with the id is still the first one after the update. */
  lemma UpdatesKeepFirstIndex(ts: seq<Task>, id: int, description: string, status: TaskStatus, now: DateTime)
    requires FirstIndexOf(ts, id) >= 0
    ensures FirstIndexOf(Described(ts, FirstIndexOf(ts, id), description, now), id) == FirstIndexOf(ts, id)
    ensures FirstIndexOf(WithStatus(ts, FirstIndexOf(ts, id), status, now), id) == FirstIndexOf(ts, id)
  {
    var k := FirstIndexOf(ts, id);
    var d := Described(ts, k, description, now);
    var w := WithStatus(ts, k, status, now);
    assert d[k].id == id && w[k].id == id;
    assert forall j :: 0 <= j < k ==> d[j].id != id && w[j].id != id;
  }

  // ---------------------------------------------------------------------------------------
  // Deleting

  /** Removal of index `k` by moving the last element into its slot and dropping the last slot. */
  function SwapRemove(ts: seq<Task>, k: int): (r: seq<Task>)
    requires 0 <= k < |ts|
    ensures |r| == |ts| - 1
    ensures forall j :: 0 <= j < |r| && j != k ==> r[j] == ts[j]
    ensures k < |r| ==> r[k] == ts[|ts| - 1]
  {
    if k != |ts| - 1 then ts[k := ts[|ts| - 1]][..|ts| - 1] else ts[..|ts| - 1]
  }

  /** Swap-removal takes exactly one occurrence of the removed task out of the list. */
  lemma SwapRemoveMultiset(ts: seq<Task>, k: int)
    requires 0 <= k < |ts|
    ensures multiset(SwapRemove(ts, k)) == multiset(ts) - multiset{ts[k]}
  {
    var last := |ts| - 1;
    if k == last {
      assert ts == ts[..last] + [ts[last]];
    } else {
      SwapRemoveShape(ts, k);
      SplitAround(ts, k);
      MovedLastMultiset(ts[..k], ts[k], ts[k + 1..last], ts[last]);
    }
  }

  lemma SwapRemoveShape(ts: seq<Task>, k: int)
    requires 0 <= k < |ts| - 1
    ensures SwapRemove(ts, k) == ts[..k] + [ts[|ts| - 1]] + ts[k + 1..|ts| - 1]
  {
  }

  lemma SplitAround(ts: seq<Task>, k: int)
    requires 0 <= k < |ts| - 1
    ensures ts == ts[..k] + [ts[k]] + ts[k + 1..|ts| - 1] + [ts[|ts| - 1]]
  {
  }

  lemma MovedLastMultiset(front: seq<Task>, a: Task, mid: seq<Task>, b: Task)
    ensures multiset(front + [b] + mid) == multiset(front + [a] + mid + [b]) - multiset{a}
  {
  }

  /**
   * `DeleteTask`: a list without the id is an error and nothing is written; otherwise the first
   * task with the id is swap-removed. The one-element list holding the id is written as the
   * empty list, which is what the swap-removal gives too.
   */
  method DeleteTask(c: JsonCodec, read: ReadOutcome, id: int, store: StoreFault) returns (out: Outcome)
    ensures WritesOnlyOnSuccess(out, store)
    ensures GetAllTasks(c, read).Failure? ==> out == Outcome(None, Some(GetAllTasks(c, read).error))
    ensures GetAllTasks(c, read).Success? ==>
      var ts := GetAllTasks(c, read).value;
      var k := FirstIndexOf(ts, id);
      && (k == -1 ==> out == Outcome(None, Some(DoesNotExist(id))))
      && (k >= 0 ==> out == Outcome(Some(SwapRemove(ts, k)), WriteTaskList(store)))
  {
    var loaded := GetAllTasks(c, read);
    if loaded.Failure? {
      return Outcome(None, Some(loaded.error));
    }
    var tasks := loaded.value;
    if |tasks| == 1 && tasks[0].id == id {
      return Outcome(Some([]), WriteTaskList(store));
    }
    var toDelete := -1;
    var i := 0;
    while i < |tasks|
      invariant 0 <= i <= |tasks|
      invariant toDelete == -1
      invariant forall j :: 0 <= j < i ==> tasks[j].id != id
    {
      if tasks[i].id == id {
        toDelete := i;
        break;
      }
      i := i + 1;
    }
    if toDelete == -1 {
      return Outcome(None, Some(DoesNotExist(id)));
    }
    var lastIndex := |tasks| - 1;
    if toDelete != lastIndex {
      tasks := tasks[toDelete := tasks[lastIndex]];
      tasks := tasks[..lastIndex];
    } else {
      tasks := tasks[..|tasks| - 1];
    }
    return Outcome(Some(tasks), WriteTaskList(store));
  }

  /** When the id occurs once, no task with that id is left after the delete. */
  lemma DeleteLeavesNoTaskWithId(ts: seq<Task>, id: int)
    requires FirstIndexOf(ts, id) >= 0
    requires forall j :: 0 <= j < |ts| && j != FirstIndexOf(ts, id) ==> ts[j].id != id
    ensures forall j :: 0 <= j < |SwapRemove(ts, FirstIndexOf(ts, id))| ==> SwapRemove(ts, FirstIndexOf(ts, id))[j].id != id
  {
    var k := FirstIndexOf(ts, id);
    var r := SwapRemove(ts, k);
    forall j | 0 <= j < |r| ensures r[j].id != id {
      if j == k {
        assert r[j] == ts[|ts| - 1];
      } else {
        assert r[j] == ts[j];
      }
    }
  }

  // ---------------------------------------------------------------------------------------
  // Filtering

  /** Whether a task is kept by a filter for `status`, equal to it or different from it. */
  predicate Keeps(t: Task, status: TaskStatus, equals: bool) {
    if equals then t.status == status else t.status != status
  }

  /** The task itself when the filter keeps it, nothing otherwise. */
  function KeptPart(t: Task, status: TaskStatus, equals: bool): seq<Task> {
    if Keeps(t, status, equals) then [t] else []
  }

  /** The tasks a filter keeps, in their original order. */
  function FilterStatus(ts: seq<Task>, status: TaskStatus, equals: bool): (r: seq<Task>)
    ensures |r| <= |ts|
    ensures forall j :: 0 <= j < |r| ==> Keeps(r[j], status, equals)
  {
    if ts == [] then []
    else
      FilterStatus(ts[..|ts| - 1], status, equals) + KeptPart(ts[|ts| - 1], status, equals)
  }

  /** `GetAllTasksByStatus`: the loaded tasks the filter keeps, or the load's error. */
  method GetAllTasksByStatus(c: JsonCodec, read: ReadOutcome, status: TaskStatus, equals: bool)
    returns (r: Result<seq<Task>, ServiceError>)
    ensures GetAllTasks(c, read).Failure? ==> r == GetAllTasks(c, read)
    ensures GetAllTasks(c, read).Success? ==> r == Success(FilterStatus(GetAllTasks(c, read).value, status, equals))
  {
    var loaded := GetAllTasks(c, read);
    if loaded.Failure? {
      return Failure(loaded.error);
    }
    var tasks := loaded.value;
    var filtered := [];
    for i := 0 to |tasks|
      invariant filtered == FilterStatus(tasks[..i], status, equals)
    {
      var task := tasks[i];
      assert tasks[..i + 1][..i] == tasks[..i];
      if equals && task.status == status {
        filtered := filtered + [task];
        continue;
      }
      if !equals && task.status != status {
        filtered := filtered + [task];
      }
    }
    assert tasks[..|tasks|] == tasks;
    return Success(filtered);
  }

  /** Filtering a concatenation filters each part: the kept tasks keep their relative order. */
  lemma {:induction false} FilterAppend(a: seq<Task>, b: seq<Task>, status: TaskStatus, equals: bool)
    ensures FilterStatus(a + b, status, equals) == FilterStatus(a, status, equals) + FilterStatus(b, status, equals)
    decreases |b|
  {
    if b != [] {
      var init := b[..|b| - 1];
      assert (a + b)[..|a + b| - 1] == a + init;
      assert (a + b)[|a + b| - 1] == b[|b| - 1];
      FilterAppend(a, init, status, equals);
    } else {
      assert a + b == a;
    }
  }

  /** A task occurs in the filtered list as often as in the list when the filter keeps it, and not at all otherwise. */
  lemma {:induction false} FilterCount(ts: seq<Task>, status: TaskStatus, equals: bool, t: Task)
    ensures multiset(FilterStatus(ts, status, equals))[t] == if Keeps(t, status, equals) then multiset(ts)[t] else 0
  {
    if ts != [] {
      var init := ts[..|ts| - 1];
      var last := ts[|ts| - 1];
      assert ts == init + [last];
      FilterCount(init, status, equals, t);
    }
  }

  /** The tasks with the status and the tasks without it make up the list between them. */
  lemma FilterPartition(ts: seq<Task>, status: TaskStatus)
    ensures multiset(FilterStatus(ts, status, true)) + multiset(FilterStatus(ts, status, false)) == multiset(ts)
  {
    var both := multiset(FilterStatus(ts, status, true)) + multiset(FilterStatus(ts, status, false));
    forall t: Task ensures both[t] == multiset(ts)[t] {
      FilterCount(ts, status, true, t);
      FilterCount(ts, status, false, t);
    }
  }

  /** Three tasks with the three named statuses: each status is kept once by equality and twice by difference. */
  lemma FilterOneOfEachStatus(ts: seq<Task>, status: TaskStatus)
    requires |ts| == 3 && forall i :: 0 <= i < 3 ==> ts[i].status == i
    requires IsNamedStatus(status)
    ensures |FilterStatus(ts, status, true)| == 1 && FilterStatus(ts, status, true)[0].status == status
    ensures |FilterStatus(ts, status, false)| == 2
  {
    assert ts == [ts[0]] + [ts[1]] + [ts[2]];
    forall equals: bool
      ensures FilterStatus(ts, status, equals)
           == KeptPart(ts[0], status, equals) + KeptPart(ts[1], status, equals) + KeptPart(ts[2], status, equals)
    {
      FilterSnoc([], ts[0], status, equals);
      FilterSnoc([ts[0]], ts[1], status, equals);
      FilterSnoc([ts[0]] + [ts[1]], ts[2], status, equals);
    }
  }

  lemma FilterSnoc(ts: seq<Task>, t: Task, status: TaskStatus, equals: bool)
    ensures FilterStatus(ts + [t], status, equals) == FilterStatus(ts, status, equals) + KeptPart(t, status, equals)
  {
    assert (ts + [t])[..|ts|] == ts;
  }
}
