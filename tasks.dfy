/** The task manager: tasks with a priority, an optional due date and tags, kept in `tasks.json`. */
module Tasks {
  import opened Common
  import opened Ordering

  datatype Task = Task(id: int, title: string, priority: int, due: Option<string>, done: bool, tags: seq<string>)

  /** The fields `edit` may set; `None` stands for a keyword that is absent or passed as `None`. */
  datatype TaskEdit = TaskEdit(
    id: Option<int>, title: Option<string>, priority: Option<int>,
    due: Option<string>, done: Option<bool>, tags: Option<seq<string>>)

  /** `max(1, min(5, priority))`: 1 is the highest priority, 5 the lowest. */
  function Clamp(priority: int): (r: int)
    ensures 1 <= r <= 5
    ensures 1 <= priority <= 5 ==> r == priority
    ensures priority < 1 ==> r == 1
    ensures priority > 5 ==> r == 5
  {
    if priority < 1 then 1 else if priority > 5 then 5 else priority
  }

  function TaskId(t: Task): int {
    t.id
  }

  predicate UniqueIds(ts: seq<Task>) {
    forall i, j :: 0 <= i < j < |ts| ==> ts[i].id != ts[j].id
  }

  /** The index of the first task with the given id, the one a `for t in self.tasks` scan stops at; -1 if none. */
  function FindId(ts: seq<Task>, id: int): (k: int)
    ensures -1 <= k < |ts|
    ensures k >= 0 ==> ts[k].id == id && forall j :: 0 <= j < k ==> ts[j].id != id
    ensures k == -1 <==> !HasId(ts, TaskId, id)
  {
    if ts == [] then -1
    else if ts[0].id == id then 0
    else
      var k := FindId(ts[1..], id);
      if k == -1 then -1 else k + 1
  }

  /** The fields `edit` sets: each one given and not `None`; the others keep their value. */
  function Apply(t: Task, e: TaskEdit): Task {
    Task(
      if e.id.Some? then e.id.value else t.id,
      if e.title.Some? then e.title.value else t.title,
      if e.priority.Some? then e.priority.value else t.priority,
      if e.due.Some? then e.due else t.due,
      if e.done.Some? then e.done.value else t.done,
      if e.tags.Some? then e.tags.value else t.tags)
  }

  /** Python's `t.due or default`: an absent or empty due date falls back to `default`. */
  function DueOr(t: Task, default: string): string {
    if t.due.Some? && t.due.value != "" then t.due.value else default
  }

  /** The sort key `list` uses for each `order`; undone tasks always come first. */
  function TaskKey(order: string): Task -> Key {
    if order == "priority" then (t: Task) => [B(t.done), I(t.priority), S(DueOr(t, ""))]
    else if order == "due" then (t: Task) => [B(t.done), S(DueOr(t, "9999-12-31")), I(t.priority)]
    else (t: Task) => [B(t.done), I(t.id)]
  }

  function TaskOrder(order: string): (Task, Task) -> bool {
    ByKey(TaskKey(order), false)
  }

  /** A Python `tag` argument filters only when it is a non-empty string. */
  predicate Shown(t: Task, showDone: bool, tag: Option<string>) {
    (showDone || !t.done) && (tag.None? || tag.value == "" || tag.value in t.tags)
  }

  /** The tasks `list` keeps before sorting, in their stored order. */
  function Selected(ts: seq<Task>, showDone: bool, tag: Option<string>): seq<Task> {
    var items := Filter(ts, (t: Task) => showDone || !t.done);
    if tag.Some? && tag.value != "" then Filter(items, (t: Task) => tag.value in t.tags) else items
  }

  lemma SelectedMembers(ts: seq<Task>, showDone: bool, tag: Option<string>)
    ensures forall t :: t in Selected(ts, showDone, tag) <==> t in ts && Shown(t, showDone, tag)
  {
    var items := Filter(ts, (t: Task) => showDone || !t.done);
    FilterMembers(ts, (t: Task) => showDone || !t.done);
    if tag.Some? && tag.value != "" {
      FilterMembers(items, (t: Task) => tag.value in t.tags);
    }
  }

  /**
   * `TaskManager.list`: the shown tasks, ordered by the key of `order`, ties kept in stored order
   * (Python's sort is stable).
   */
  function ListTasks(ts: seq<Task>, showDone: bool, tag: Option<string>, order: string): (r: seq<Task>)
    ensures Sorted(r, TaskOrder(order))
    ensures multiset(r) == multiset(Selected(ts, showDone, tag))
    ensures forall t :: t in r <==> t in ts && Shown(t, showDone, tag)
    ensures forall c :: Ties(r, TaskOrder(order), c) == Ties(Selected(ts, showDone, tag), TaskOrder(order), c)
  {
    var r := SortByKey(Selected(ts, showDone, tag), TaskKey(order), false);
    SelectedMembers(ts, showDone, tag);
    assert forall t :: t in r <==> t in multiset(r);
    r
  }

  class TaskManager {
    var tasks: seq<Task>
    /** What `tasks.json` parses to; each `_save` writes the current tasks there. */
    ghost var persisted: Option<seq<Task>>

    ghost predicate Synced()
      reads this
    {
      LoadList(persisted) == tasks
    }

    constructor(stored: Option<seq<Task>>)
      ensures tasks == LoadList(stored) && persisted == stored
      ensures Synced()
    {
      tasks := LoadList(stored);
      persisted := stored;
    }

    /** Appends a task with a fresh id and a clamped priority, and saves. */
    method Add(title: string, priority: int, due: Option<string>, tags: Option<seq<string>>) returns (t: Task)
      modifies this
      ensures t == Task(NextId(Ids(old(tasks), TaskId)), title, Clamp(priority), due, false,
                        if tags.Some? then tags.value else [])
      ensures forall i :: 0 <= i < |old(tasks)| ==> old(tasks)[i].id < t.id
      ensures tasks == old(tasks) + [t] && persisted == Some(tasks)
      ensures UniqueIds(old(tasks)) ==> UniqueIds(tasks)
    {
      var id := NextId(Ids(tasks, TaskId));
      t := Task(id, title, Clamp(priority), due, false, if tags.Some? then tags.value else []);
      tasks := tasks + [t];
      persisted := Some(tasks);
    }

    /** Flips `done` on the first task with the id; saves only when there is one. */
    method Toggle(id: int) returns (found: bool)
      modifies this
      ensures found <==> HasId(old(tasks), TaskId, id)
      ensures found ==>
        var k := FindId(old(tasks), id);
        tasks == old(tasks)[k := old(tasks)[k].(done := !old(tasks)[k].done)] && persisted == Some(tasks)
      ensures !found ==> tasks == old(tasks) && persisted == old(persisted)
      ensures old(Synced()) ==> Synced()
    {
      var i := 0;
      while i < |tasks|
        invariant 0 <= i <= |tasks|
        invariant tasks == old(tasks) && persisted == old(persisted)
        invariant forall j :: 0 <= j < i ==> tasks[j].id != id
      {
        if tasks[i].id == id {
          var t := tasks[i];
          tasks := tasks[i := t.(done := !t.done)];
          persisted := Some(tasks);
          return true;
        }
        i := i + 1;
      }
      return false;
    }

    /** Removes every task with the id; saves and answers true only when one was removed. */
    method Delete(id: int) returns (found: bool)
      modifies this
      ensures found <==> HasId(old(tasks), TaskId, id)
      ensures found ==> tasks == Filter(old(tasks), (t: Task) => t.id != id) && persisted == Some(tasks)
      ensures !found ==> tasks == old(tasks) && persisted == old(persisted)
      ensures forall t :: t in tasks <==> t in old(tasks) && t.id != id
      ensures old(Synced()) ==> Synced()
    {
      var before := |tasks|;
      var kept := Filter(tasks, (t: Task) => t.id != id);
      FilterKeepsLength(tasks, (t: Task) => t.id != id);
      FilterMembers(tasks, (t: Task) => t.id != id);
      if |kept| != before {
        tasks := kept;
        persisted := Some(tasks);
        return true;
      }
      FilterAllTrue(tasks, (t: Task) => t.id != id);
      return false;
    }

    /** Sets the given fields of the first task with the id (priority unclamped); saves only when there is one. */
    method Edit(id: int, e: TaskEdit) returns (found: bool)
      modifies this
      ensures found <==> HasId(old(tasks), TaskId, id)
      ensures found ==>
        var k := FindId(old(tasks), id);
        tasks == old(tasks)[k := Apply(old(tasks)[k], e)] && persisted == Some(tasks)
      ensures !found ==> tasks == old(tasks) && persisted == old(persisted)
      ensures old(Synced()) ==> Synced()
    {
      var i := 0;
      while i < |tasks|
        invariant 0 <= i <= |tasks|
        invariant tasks == old(tasks) && persisted == old(persisted)
        invariant forall j :: 0 <= j < i ==> tasks[j].id != id
      {
        if tasks[i].id == id {
          tasks := tasks[i := Apply(tasks[i], e)];
          persisted := Some(tasks);
          return true;
        }
        i := i + 1;
      }
      return false;
    }
  }
}
