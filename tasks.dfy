/** The task and category records, the status counts of `getTaskStats`, and
    the in-memory copy of the server's task list that `useTasks` keeps: the
    replies of the server are inputs, and only their effect on the local
    state is modelled. */
module Tasks {
  import opened Wrappers
  import opened Seqs

  datatype Priority = Low | Medium | High
  datatype Status = Pending | InProgress | Completed

  function PriorityName(p: Priority): string
  {
    match p
    case Low => "low"
    case Medium => "medium"
    case High => "high"
  }

  function StatusName(s: Status): string
  {
    match s
    case Pending => "pending"
    case InProgress => "in-progress"
    case Completed => "completed"
  }

  /** The wire names tell the values apart, and none of them is the
      filter value `all`. */
  lemma NamesAreDistinct(p: Priority, q: Priority, s: Status, t: Status)
    ensures PriorityName(p) == PriorityName(q) ==> p == q
    ensures StatusName(s) == StatusName(t) ==> s == t
    ensures PriorityName(p) != "all" && StatusName(s) != "all"
  {
  }

  /** A task as the server stores it. `dueDate` is a `YYYY-MM-DD` string,
      `createdAt` and `updatedAt` are `toISOString` timestamps. */
  datatype Task = Task(
    id: int,
    title: string,
    description: string,
    category: string,
    priority: Priority,
    status: Status,
    dueDate: string,
    createdAt: string,
    updatedAt: string,
    userId: int)

  /** A category; tasks refer to it by `name`. `labelText` is the source's
      `label` (a reserved word in Dafny). */
  datatype Category = Category(id: int, name: string, labelText: string, color: string)

  predicate IsCompleted(t: Task) { t.status == Completed }
  predicate IsInProgress(t: Task) { t.status == InProgress }
  predicate IsPending(t: Task) { t.status == Pending }

  datatype TaskCounts = TaskCounts(total: nat, completed: nat, inProgress: nat, pending: nat)

  /** `getTaskStats`. */
  function ComputeStats(tasks: seq<Task>): (r: TaskCounts)
    ensures r.total == |tasks|
    ensures r.completed + r.inProgress + r.pending == r.total
  {
    CountPartition3(tasks, IsCompleted, IsInProgress, IsPending);
    TaskCounts(|tasks|, Count(tasks, IsCompleted), Count(tasks, IsInProgress), Count(tasks, IsPending))
  }

  /** `categories.find(cat => cat.name === name)`: the first category with
      that name, or `undefined`. */
  function FindCategory(categories: seq<Category>, name: string): (r: Option<Category>)
    ensures r.None? <==> forall i :: 0 <= i < |categories| ==> categories[i].name != name
    ensures r.Some? ==> exists k :: 0 <= k < |categories| && categories[k] == r.value && r.value.name == name &&
                                    forall i :: 0 <= i < k ==> categories[i].name != name
  {
    if categories == [] then None
    else if categories[0].name == name then Some(categories[0])
    else
      var r := FindCategory(categories[1..], name);
      if r.Some? then
        var k :| 0 <= k < |categories[1..]| && categories[1..][k] == r.value && r.value.name == name &&
                 forall i :: 0 <= i < k ==> categories[1..][i].name != name;
        assert categories[k + 1] == r.value;
        r
      else r
  }

  /** `prev.map(task => task.id === id ? updated : task)`. */
  function ReplaceById(tasks: seq<Task>, id: int, updated: Task): (r: seq<Task>)
    ensures |r| == |tasks|
    ensures forall i :: 0 <= i < |tasks| ==> r[i] == if tasks[i].id == id then updated else tasks[i]
  {
    seq(|tasks|, i requires 0 <= i < |tasks| => if tasks[i].id == id then updated else tasks[i])
  }

  /** `prev.filter(task => task.id !== id)`. */
  function RemoveById(tasks: seq<Task>, id: int): (r: seq<Task>)
    ensures |r| <= |tasks|
    ensures forall i :: 0 <= i < |r| ==> r[i].id != id && r[i] in tasks
    ensures forall i :: 0 <= i < |tasks| && tasks[i].id != id ==> tasks[i] in r
  {
    var r := Filter(tasks, (t: Task) => t.id != id);
    assert forall i :: 0 <= i < |r| ==> r[i] in r;
    r
  }

  /** Deleting an id that no task carries changes nothing. */
  lemma {:induction false} RemoveAbsentId(tasks: seq<Task>, id: int)
    requires forall i :: 0 <= i < |tasks| ==> tasks[i].id != id
    ensures RemoveById(tasks, id) == tasks
  {
    if tasks != [] {
      RemoveAbsentId(tasks[1..], id);
    }
  }

  /** The number of tasks removed is the number that carried the id. */
  lemma {:induction false} RemoveByIdLength(tasks: seq<Task>, id: int)
    ensures |RemoveById(tasks, id)| + |WithId(tasks, id)| == |tasks|
  {
    if tasks != [] {
      RemoveByIdLength(tasks[1..], id);
    }
  }

  /** The tasks carrying `id`, in order. */
  function WithId(tasks: seq<Task>, id: int): seq<Task>
  {
    if tasks == [] then []
    else (if tasks[0].id == id then [tasks[0]] else []) + WithId(tasks[1..], id)
  }

  /** Replacing by the id the replacement itself carries is idempotent. */
  lemma ReplaceByIdIdempotent(tasks: seq<Task>, id: int, updated: Task)
    requires updated.id == id
    ensures ReplaceById(ReplaceById(tasks, id, updated), id, updated) == ReplaceById(tasks, id, updated)
  {
  }

  /** What the server answered to a create or update request: a thrown
      network error, or a response with its `ok` flag and its JSON body. */
  datatype RecordReply = RecordThrew | RecordResponse(ok: bool, body: Task)

  /** What the server answered to a delete request. */
  datatype DeleteReply = DeleteThrew | DeleteResponse(ok: bool)

  /** What `fetch` of the task list produced: a thrown error, or the parsed body. */
  datatype ListReply = ListThrew | ListBody(records: seq<Task>)

  datatype CategoryReply = CategoryThrew | CategoryBody(records: seq<Category>)

  /** `!userId`: `null`, `undefined` and `0` count as absent. */
  predicate Falsy(userId: Option<int>)
  {
    userId.None? || userId.value == 0
  }

  const CreateFailed := "Failed to create task"
  const UpdateFailed := "Failed to update task"
  const DeleteFailed := "Failed to delete task"
  const FetchFailed := "Failed to fetch tasks"

  /** The state of one `useTasks(userId)` hook. */
  class TaskStore {
    const userId: Option<int>
    var tasks: seq<Task>
    var categories: seq<Category>
    var loading: bool
    var error: Option<string>

    constructor (userId: Option<int>)
      ensures this.userId == userId
      ensures tasks == [] && categories == [] && loading && error == None
    {
      this.userId := userId;
      tasks := [];
      categories := [];
      loading := true;
      error := None;
    }

    /** `fetchTasks`: nothing at all without a user; otherwise the list is
        replaced by the reply and the error cleared, or, when the request
        throws, the list is kept and the error set. Loading ends either way. */
    method FetchTasks(reply: ListReply)
      modifies this
      ensures Falsy(userId) ==> tasks == old(tasks) && error == old(error) && loading == old(loading)
      ensures !Falsy(userId) && reply.ListBody? ==> tasks == reply.records && error == None && !loading
      ensures !Falsy(userId) && reply.ListThrew? ==> tasks == old(tasks) && error == Some(FetchFailed) && !loading
      ensures categories == old(categories)
    {
      if Falsy(userId) {
        return;
      }
      loading := true;
      match reply {
        case ListBody(records) =>
          tasks := records;
          error := None;
        case ListThrew =>
          error := Some(FetchFailed);
      }
      loading := false;
    }

    /** `fetchCategories`: a failure is only logged. */
    method FetchCategories(reply: CategoryReply)
      modifies this
      ensures reply.CategoryBody? ==> categories == reply.records
      ensures reply.CategoryThrew? ==> categories == old(categories)
      ensures tasks == old(tasks) && error == old(error) && loading == old(loading)
    {
      if reply.CategoryBody? {
        categories := reply.records;
      }
    }

    /** `createTask`: with no user it returns null and does nothing; an ok
        reply appends the returned record and returns it; a non-ok reply
        returns null and changes nothing; a thrown request sets the error. */
    method CreateTask(reply: RecordReply) returns (created: Option<Task>)
      modifies this
      ensures Falsy(userId) ==> created == None && tasks == old(tasks) && error == old(error)
      ensures !Falsy(userId) && reply.RecordResponse? && reply.ok ==>
                created == Some(reply.body) && tasks == old(tasks) + [reply.body] && error == old(error)
      ensures !Falsy(userId) && reply.RecordResponse? && !reply.ok ==>
                created == None && tasks == old(tasks) && error == old(error)
      ensures !Falsy(userId) && reply.RecordThrew? ==>
                created == None && tasks == old(tasks) && error == Some(CreateFailed)
      ensures categories == old(categories) && loading == old(loading)
    {
      if Falsy(userId) {
        return None;
      }
      match reply {
        case RecordResponse(ok, body) =>
          if ok {
            tasks := tasks + [body];
            return Some(body);
          }
        case RecordThrew =>
          error := Some(CreateFailed);
      }
      return None;
    }

    /** `updateTask(id, …)`: an ok reply replaces every task with that id by
        the returned record; otherwise as for create. No user is needed. */
    method UpdateTask(id: int, reply: RecordReply) returns (updated: Option<Task>)
      modifies this
      ensures reply.RecordResponse? && reply.ok ==>
                updated == Some(reply.body) && tasks == ReplaceById(old(tasks), id, reply.body) && error == old(error)
      ensures reply.RecordResponse? && !reply.ok ==>
                updated == None && tasks == old(tasks) && error == old(error)
      ensures reply.RecordThrew? ==>
                updated == None && tasks == old(tasks) && error == Some(UpdateFailed)
      ensures categories == old(categories) && loading == old(loading)
    {
      match reply {
        case RecordResponse(ok, body) =>
          if ok {
            tasks := ReplaceById(tasks, id, body);
            return Some(body);
          }
        case RecordThrew =>
          error := Some(UpdateFailed);
      }
      return None;
    }

    /** `deleteTask(id)`: an ok reply removes every task with that id and
        returns true; any failure returns false and keeps the list. */
    method DeleteTask(id: int, reply: DeleteReply) returns (deleted: bool)
      modifies this
      ensures deleted <==> reply.DeleteResponse? && reply.ok
      ensures deleted ==> tasks == RemoveById(old(tasks), id) && error == old(error)
      ensures !deleted ==> tasks == old(tasks)
      ensures reply.DeleteResponse? && !reply.ok ==> error == old(error)
      ensures reply.DeleteThrew? ==> error == Some(DeleteFailed)
      ensures categories == old(categories) && loading == old(loading)
    {
      match reply {
        case DeleteResponse(ok) =>
          if ok {
            tasks := RemoveById(tasks, id);
            return true;
          }
        case DeleteThrew =>
          error := Some(DeleteFailed);
      }
      return false;
    }
  }
}
