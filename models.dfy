/** The task record and its status enumeration (model/models.go). */
module Models {

  /** A task status is a Go `int`-backed enumeration; only 0, 1 and 2 are named. */
  type TaskStatus = int

  const TODO: TaskStatus := 0
  const IN_PROGRESS: TaskStatus := 1
  const DONE: TaskStatus := 2

  /** The display names, indexed by status. */
  const StatusNames: seq<string> := ["To do", "In progress", "Done"]

  predicate IsNamedStatus(t: TaskStatus) {
    TODO <= t <= DONE
  }

  /** `TaskStatus.String`: indexes the array of names, so any other value panics. */
  function String(t: TaskStatus): (s: string)
    requires IsNamedStatus(t)
    ensures t == TODO ==> s == "To do"
    ensures t == IN_PROGRESS ==> s == "In progress"
    ensures t == DONE ==> s == "Done"
  {
    StatusNames[t]
  }

  /** `TaskStatus.EnumIndex`: the underlying integer, usable as an index of the names. */
  function EnumIndex(t: TaskStatus): (i: int)
    ensures i == t as int
    ensures IsNamedStatus(t) ==> 0 <= i < |StatusNames| && StatusNames[i] == String(t)
  {
    t as int
  }

  /** Different named statuses have different display names. */
  lemma StringInjective(a: TaskStatus, b: TaskStatus)
    requires IsNamedStatus(a) && IsNamedStatus(b)
    ensures String(a) == String(b) <==> a == b
  {
    if a != b {
      assert String(a)[0] != String(b)[0] || |String(a)| != |String(b)|;
    }
  }

  /** Timestamps are opaque: the model only compares them. */
  type DateTime(==, !new)

  /** A task record. The identifier is an integer, as the repository and the tests use it. */
  datatype Task = Task(
    id: int,
    description: string,
    status: TaskStatus,
    createdAt: DateTime,
    updatedAt: DateTime)

  /** The fields an update replaces. */
  datatype TaskUpdate = TaskUpdate(description: string, status: TaskStatus)
}
