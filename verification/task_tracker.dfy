// The task tracker: projects of tasks keyed by id, an active project, and
// the quick TODO list.  Timestamps come from the system clock in the
// Rust code; here the current time is a parameter `now`.

module TaskTracking {
  import opened Wrappers

  // ---------------------------------------------------------------------
  // Tasks and projects
  // ---------------------------------------------------------------------

  datatype TaskStatus = Pending | InProgress | Completed | Cancelled | Blocked

  datatype TaskPriority = Low | Medium | High | Critical

  const DefaultPriority := TaskPriority.Medium

  datatype Task = Task(
    id: string, title: string, description: string, status: TaskStatus, priority: TaskPriority,
    createdAt: nat, updatedAt: nat, completedAt: Option<nat>, assignee: Option<string>,
    tags: seq<string>, subtasks: seq<string>, dependencies: seq<string>)

  /** `Task::new`: pending, of default priority, created and updated now,
      with nothing else set. */
  function NewTask(id: string, title: string, now: nat): (r: Task)
    ensures r.id == id && r.title == title && r.description == ""
    ensures r.status == Pending && r.priority == DefaultPriority
    ensures r.createdAt == now && r.updatedAt == now && r.completedAt.None?
    ensures r.assignee.None? && r.tags == [] && r.subtasks == [] && r.dependencies == []
  {
    Task(id, title, "", Pending, DefaultPriority, now, now, None, None, [], [], [])
  }

  /** `set_completed`: completed now; nothing but the status and the two
      timestamps changes. */
  function SetCompleted(t: Task, now: nat): (r: Task)
    ensures r.status == Completed && r.updatedAt == now && r.completedAt == Some(now)
    ensures r.(status := t.status, updatedAt := t.updatedAt, completedAt := t.completedAt) == t
  {
    t.(status := Completed, updatedAt := now, completedAt := Some(now))
  }

  datatype Project = Project(name: string, description: string, tasks: map<string, Task>, createdAt: nat, updatedAt: nat)

  /** `Project::new`: no tasks, created and updated now. */
  function NewProject(name: string, now: nat): (r: Project)
    ensures r.name == name && r.tasks == map[] && r.createdAt == now && r.updatedAt == now
  {
    Project(name, "", map[], now, now)
  }

  function GetTask(p: Project, id: string): (r: Option<Task>)
    ensures r.Some? <==> id in p.tasks
    ensures r.Some? ==> r.value == p.tasks[id]
  {
    if id in p.tasks then Some(p.tasks[id]) else None
  }

  /** `add_task`: the task is stored under its id, replacing any task with
      that id; the other tasks are untouched. */
  function AddTask(p: Project, task: Task, now: nat): (r: Project)
    ensures GetTask(r, task.id) == Some(task)
    ensures forall id :: id != task.id ==> GetTask(r, id) == GetTask(p, id)
    ensures r.updatedAt == now && r.name == p.name
  {
    p.(tasks := p.tasks[task.id := task], updatedAt := now)
  }

  /** `remove_task`: the task, if there was one, and the project without
      it.  The update time is left alone. */
  function RemoveTask(p: Project, id: string): (r: (Project, Option<Task>))
    ensures r.1 == GetTask(p, id)
    ensures GetTask(r.0, id).None?
    ensures forall k :: k != id ==> GetTask(r.0, k) == GetTask(p, k)
    ensures r.0.updatedAt == p.updatedAt
  {
    (p.(tasks := p.tasks - {id}), GetTask(p, id))
  }

  /** Removing a task just added gives it back and leaves the project's
      other tasks as they were before. */
  lemma RemoveAddedTask(p: Project, task: Task, now: nat)
    ensures RemoveTask(AddTask(p, task, now), task.id).1 == Some(task)
    ensures RemoveTask(AddTask(p, task, now), task.id).0.tasks == p.tasks - {task.id}
  {
  }

  /** `tasks_by_status`, as the set of ids of the matching tasks (the Rust code
      returns them in hash order). */
  function TasksByStatus(p: Project, status: TaskStatus): (r: set<string>)
    ensures r <= p.tasks.Keys
    ensures forall id :: id in r <==> GetTask(p, id).Some? && GetTask(p, id).value.status == status
  {
    set id | id in p.tasks && p.tasks[id].status == status
  }

  /** `tasks_by_priority`, as the set of ids of the matching tasks. */
  function TasksByPriority(p: Project, priority: TaskPriority): (r: set<string>)
    ensures r <= p.tasks.Keys
    ensures forall id :: id in r <==> GetTask(p, id).Some? && GetTask(p, id).value.priority == priority
  {
    set id | id in p.tasks && p.tasks[id].priority == priority
  }

  /** Every task is listed under exactly one status. */
  lemma StatusesPartitionTasks(p: Project)
    ensures TasksByStatus(p, Pending) + TasksByStatus(p, InProgress) + TasksByStatus(p, Completed)
            + TasksByStatus(p, Cancelled) + TasksByStatus(p, Blocked) == p.tasks.Keys
    ensures forall s1, s2 :: s1 != s2 ==> TasksByStatus(p, s1) !! TasksByStatus(p, s2)
  {
  }

  /** A subset is no larger, and only as large when it is the whole set. */
  lemma {:induction false} SubsetCardinality(a: set<string>, b: set<string>)
    requires a <= b
    ensures |a| <= |b|
    ensures |a| == |b| ==> a == b
    decreases |b|
  {
    if b != {} {
      var x :| x in b;
      var b' := b - {x};
      assert |b'| == |b| - 1;
      if x in a {
        var a' := a - {x};
        assert |a'| == |a| - 1;
        SubsetCardinality(a', b');
        if |a| == |b| {
          assert a' == b';
          assert a == a' + {x} && b == b' + {x};
        }
      } else {
        SubsetCardinality(a, b');
      }
    }
  }

  /** A share of `n`, out of 100. */
  lemma Percentage(c: nat, n: nat)
    requires 0 < n && c <= n
    ensures 0.0 <= c as real / n as real * 100.0 <= 100.0
    ensures c as real / n as real * 100.0 == 100.0 <==> c == n
    ensures c as real / n as real * 100.0 == 0.0 <==> c == 0
  {
    var q := c as real / n as real;
    assert q * n as real == c as real;
    assert (1.0 - q) * n as real == n as real - c as real;
    assert 0.0 <= q <= 1.0;
    assert q == 1.0 <==> c == n;
    assert q == 0.0 <==> c == 0;
  }

  /** The completed tasks are all the tasks exactly when each is completed. */
  lemma AllCompleted(p: Project)
    ensures TasksByStatus(p, Completed) == p.tasks.Keys <==> forall id :: id in p.tasks ==> p.tasks[id].status == Completed
  {
  }

  /** `completion_percentage`: the share of completed tasks, out of 100;
      a project without tasks counts as complete. */
  function CompletionPercentage(p: Project): (r: real)
    ensures |p.tasks| == 0 ==> r == 100.0
    ensures 0.0 <= r <= 100.0
    ensures |p.tasks| > 0 ==> (r == 100.0 <==> forall id :: id in p.tasks ==> p.tasks[id].status == Completed)
    ensures |p.tasks| > 0 ==> (r == 0.0 <==> TasksByStatus(p, Completed) == {})
  {
    if |p.tasks.Keys| == 0 then 100.0
    else
      var done := TasksByStatus(p, Completed);
      SubsetCardinality(done, p.tasks.Keys);
      Percentage(|done|, |p.tasks.Keys|);
      AllCompleted(p);
      |done| as real / |p.tasks.Keys| as real * 100.0
  }

  // ---------------------------------------------------------------------
  // The tracker
  // ---------------------------------------------------------------------

  datatype TaskTracker = TaskTracker(projects: map<string, Project>, activeProject: Option<string>)

  const NewTracker := TaskTracker(map[], None)

  /** The active project, when one is set and exists. */
  function GetActiveProject(t: TaskTracker): (r: Option<Project>)
    ensures r.Some? <==> t.activeProject.Some? && t.activeProject.value in t.projects
    ensures r.Some? ==> r.value == t.projects[t.activeProject.value]
  {
    match t.activeProject
    case None => None
    case Some(name) => if name in t.projects then Some(t.projects[name]) else None
  }

  /** Every tracker the operations build: the active project exists. */
  predicate ActiveExists(t: TaskTracker)
  {
    t.activeProject.Some? ==> t.activeProject.value in t.projects
  }

  /** `create_project`: a new empty project under the name, replacing any
      project of that name. */
  function CreateProject(t: TaskTracker, name: string, now: nat): (r: TaskTracker)
    ensures name in r.projects && r.projects[name].tasks == map[]
    ensures forall k :: k != name ==> (k in r.projects <==> k in t.projects) && (k in t.projects ==> r.projects[k] == t.projects[k])
    ensures r.activeProject == t.activeProject
    ensures ActiveExists(t) ==> ActiveExists(r)
  {
    t.(projects := t.projects[name := NewProject(name, now)])
  }

  /** `set_active_project`: succeeds, and makes the project active, exactly
      when a project of that name exists; otherwise nothing changes. */
  function SetActiveProject(t: TaskTracker, name: string): (r: (TaskTracker, bool))
    ensures r.1 <==> name in t.projects
    ensures r.1 ==> r.0.activeProject == Some(name) && r.0.projects == t.projects
    ensures !r.1 ==> r.0 == t
    ensures ActiveExists(t) ==> ActiveExists(r.0)
  {
    if name in t.projects then (t.(activeProject := Some(name)), true) else (t, false)
  }

  /** `add_task_to_active`: adds the task to the active project; fails, with
      nothing changed, when there is none. */
  function AddTaskToActive(t: TaskTracker, task: Task, now: nat): (r: (TaskTracker, bool))
    ensures r.1 <==> GetActiveProject(t).Some?
    ensures !r.1 ==> r.0 == t
    ensures r.1 ==> GetActiveProject(r.0) == Some(AddTask(GetActiveProject(t).value, task, now))
    ensures r.0.activeProject == t.activeProject
    ensures forall k :: k in t.projects && Some(k) != t.activeProject ==> k in r.0.projects && r.0.projects[k] == t.projects[k]
    ensures ActiveExists(t) ==> ActiveExists(r.0)
  {
    match GetActiveProject(t)
    case None => (t, false)
    case Some(p) => (t.(projects := t.projects[t.activeProject.value := AddTask(p, task, now)]), true)
  }

  /** In a tracker the operations built, adding to the active project fails
      exactly when no project is active. */
  lemma AddTaskToActiveFails(t: TaskTracker, task: Task, now: nat)
    requires ActiveExists(t)
    ensures !AddTaskToActive(t, task, now).1 <==> t.activeProject.None?
  {
  }

  // ---------------------------------------------------------------------
  // The TODO list
  // ---------------------------------------------------------------------

  datatype TodoItem = TodoItem(id: nat, text: string, completed: bool, createdAt: nat)

  datatype TodoList = TodoList(items: seq<TodoItem>)

  /** `Vec::retain`: the elements that pass, in their order. */
  function Retain(s: seq<TodoItem>, keep: TodoItem -> bool): (r: seq<TodoItem>)
    ensures |r| <= |s|
    ensures forall x :: x in r <==> x in s && keep(x)
    ensures |r| == |s| <==> forall i :: 0 <= i < |s| ==> keep(s[i])
  {
    if |s| == 0 then []
    else
      var rest := Retain(s[1..], keep);
      assert forall i :: 1 <= i < |s| ==> s[i] == s[1..][i - 1];
      if keep(s[0]) then [s[0]] + rest else rest
  }

  predicate IsCompleted(i: TodoItem)
  {
    i.completed
  }

  predicate IsPending(i: TodoItem)
  {
    !i.completed
  }

  /** `completed_count`. */
  function CompletedCount(l: TodoList): (r: nat)
    ensures r <= |l.items|
    ensures r == |l.items| <==> forall i :: 0 <= i < |l.items| ==> l.items[i].completed
  {
    |Retain(l.items, IsCompleted)|
  }

  /** `pending_count`. */
  function PendingCount(l: TodoList): (r: nat)
    ensures r <= |l.items|
    ensures r == |l.items| <==> forall i :: 0 <= i < |l.items| ==> !l.items[i].completed
  {
    |Retain(l.items, IsPending)|
  }

  lemma {:induction false} RetainSplit(s: seq<TodoItem>)
    ensures |Retain(s, IsCompleted)| + |Retain(s, IsPending)| == |s|
  {
    if |s| > 0 {
      RetainSplit(s[1..]);
    }
  }

  /** Every item is either completed or pending. */
  lemma CountsPartition(l: TodoList)
    ensures CompletedCount(l) + PendingCount(l) == |l.items|
  {
    RetainSplit(l.items);
  }

  /** No two items share an id. */
  predicate UniqueIds(items: seq<TodoItem>)
  {
    forall i, j :: 0 <= i < j < |items| ==> items[i].id != items[j].id
  }

  /** The largest id in use, 0 for an empty list. */
  function MaxId(items: seq<TodoItem>): (r: nat)
    ensures forall i :: 0 <= i < |items| ==> items[i].id <= r
    ensures |items| > 0 ==> exists i :: 0 <= i < |items| && items[i].id == r
  {
    if |items| == 0 then 0
    else
      var m := MaxId(items[1..]);
      assert forall i :: 1 <= i < |items| ==> items[i] == items[1..][i - 1];
      if items[0].id >= m then items[0].id else m
  }

  /** `TodoList::add` as written: the new id is one more than the number of
      items, which an earlier removal can make an id already in use. */
  function AddAsWritten(l: TodoList, text: string, now: nat): (r: (TodoList, nat))
    ensures r.1 == |l.items| + 1
    ensures r.0.items == l.items + [TodoItem(r.1, text, false, now)]
  {
    var id := |l.items| + 1;
    (TodoList(l.items + [TodoItem(id, text, false, now)]), id)
  }

  /** `add` with an id one past the largest in use, so ids stay unique; on
      a list that has never had an item removed this is the Rust code's id. */
  function AddCorrected(l: TodoList, text: string, now: nat): (r: (TodoList, nat))
    ensures r.1 >= 1
    ensures forall i :: 0 <= i < |l.items| ==> l.items[i].id != r.1
    ensures r.0.items == l.items + [TodoItem(r.1, text, false, now)]
    ensures UniqueIds(l.items) ==> UniqueIds(r.0.items)
  {
    var id := MaxId(l.items) + 1;
    (TodoList(l.items + [TodoItem(id, text, false, now)]), id)
  }

  /** On a list whose ids are 1, 2, ... in order, as a list only ever added
      to has, the corrected id is the Rust code's. */
  lemma AddMatchesSource(l: TodoList, text: string, now: nat)
    requires forall i :: 0 <= i < |l.items| ==> l.items[i].id == i + 1
    ensures AddCorrected(l, text, now) == AddAsWritten(l, text, now)
  {
    if |l.items| > 0 {
      assert l.items[|l.items| - 1].id == |l.items|;
    }
  }

  /** The position of the first item with the id. */
  function FirstIndex(items: seq<TodoItem>, id: nat): (r: Option<nat>)
    ensures r.Some? ==> r.value < |items| && items[r.value].id == id
    ensures r.Some? ==> forall j :: 0 <= j < r.value ==> items[j].id != id
    ensures r.None? ==> forall j :: 0 <= j < |items| ==> items[j].id != id
  {
    if |items| == 0 then None
    else if items[0].id == id then Some(0)
    else
      match FirstIndex(items[1..], id)
      case None => None
      case Some(k) => Some(k + 1)
  }

  /** `toggle`: flips the first item with the id; false, with nothing
      changed, when there is none. */
  function Toggle(l: TodoList, id: nat): (r: (TodoList, bool))
    ensures r.1 <==> exists i :: 0 <= i < |l.items| && l.items[i].id == id
    ensures |r.0.items| == |l.items|
    ensures forall i :: 0 <= i < |l.items| ==>
      r.0.items[i] == (if Some(i) == FirstIndex(l.items, id) then l.items[i].(completed := !l.items[i].completed) else l.items[i])
  {
    match FirstIndex(l.items, id)
    case None => (l, false)
    case Some(k) => (TodoList(l.items[k := l.items[k].(completed := !l.items[k].completed)]), true)
  }

  /** Toggling twice restores the list. */
  lemma ToggleTwice(l: TodoList, id: nat)
    ensures Toggle(Toggle(l, id).0, id).0 == l
  {
    var once := Toggle(l, id).0;
    var k := FirstIndex(l.items, id);
    if k.Some? {
      assert forall j :: 0 <= j < |l.items| ==> once.items[j].id == l.items[j].id;
      assert FirstIndex(once.items, id) == k;
    }
  }

  /** With unique ids, toggling changes the completion of the one item with
      that id and nothing else. */
  lemma ToggleUnique(l: TodoList, id: nat)
    requires UniqueIds(l.items)
    ensures forall i :: 0 <= i < |l.items| ==>
      Toggle(l, id).0.items[i].completed == (l.items[i].completed != (l.items[i].id == id))
    ensures UniqueIds(Toggle(l, id).0.items)
  {
  }

  /** `remove`: drops every item with the id; true exactly when one was
      dropped. */
  function Remove(l: TodoList, id: nat): (r: (TodoList, bool))
    ensures r.1 <==> exists i :: 0 <= i < |l.items| && l.items[i].id == id
    ensures forall x :: x in r.0.items <==> x in l.items && x.id != id
    ensures |r.0.items| <= |l.items|
  {
    var kept := Retain(l.items, (x: TodoItem) => x.id != id);
    (TodoList(kept), |kept| < |l.items|)
  }

  /** Keeping a sub-list keeps the ids unique. */
  lemma {:induction false} RetainUnique(s: seq<TodoItem>, keep: TodoItem -> bool)
    requires UniqueIds(s)
    ensures UniqueIds(Retain(s, keep))
  {
    if |s| > 0 {
      assert UniqueIds(s[1..]);
      RetainUnique(s[1..], keep);
      var rest := Retain(s[1..], keep);
      forall j | 0 <= j < |rest|
        ensures rest[j].id != s[0].id
      {
        assert rest[j] in s[1..];
      }
    }
  }

  lemma RemoveUnique(l: TodoList, id: nat)
    requires UniqueIds(l.items)
    ensures UniqueIds(Remove(l, id).0.items)
    ensures Remove(l, id).1 ==> |Remove(l, id).0.items| == |l.items| - 1
  {
    RetainUnique(l.items, (x: TodoItem) => x.id != id);
    if Remove(l, id).1 {
      var k :| 0 <= k < |l.items| && l.items[k].id == id;
      RetainOne(l.items, id, k);
    }
  }

  /** With unique ids, removing an id present drops exactly one item. */
  lemma {:induction false} RetainOne(s: seq<TodoItem>, id: nat, k: nat)
    requires UniqueIds(s) && k < |s| && s[k].id == id
    ensures |Retain(s, (x: TodoItem) => x.id != id)| == |s| - 1
  {
    var keep := (x: TodoItem) => x.id != id;
    assert UniqueIds(s[1..]);
    if k == 0 {
      assert forall i :: 0 <= i < |s[1..]| ==> keep(s[1..][i]);
    } else {
      RetainOne(s[1..], id, k - 1);
    }
  }

  /** `clear_completed`: the pending items, in order. */
  function ClearCompleted(l: TodoList): (r: TodoList)
    ensures forall x :: x in r.items <==> x in l.items && !x.completed
    ensures CompletedCount(r) == 0 && PendingCount(r) == PendingCount(l)
  {
    var kept := Retain(l.items, IsPending);
    assert forall i :: 0 <= i < |kept| ==> kept[i] in kept;
    RetainPendingTwice(l.items);
    CountsPartition(TodoList(kept));
    TodoList(kept)
  }

  lemma {:induction false} RetainPendingTwice(s: seq<TodoItem>)
    ensures Retain(Retain(s, IsPending), IsPending) == Retain(s, IsPending)
  {
    if |s| > 0 {
      RetainPendingTwice(s[1..]);
    }
  }

  /** Clearing completed items twice is clearing them once. */
  lemma ClearCompletedIdempotent(l: TodoList)
    ensures ClearCompleted(ClearCompleted(l)) == ClearCompleted(l)
  {
    RetainPendingTwice(l.items);
  }

  /** As written, ids repeat: add two items, remove the first, add a third,
      and the second and third both have id 2. */
  lemma DuplicateIdAfterRemove()
    ensures var l1 := AddAsWritten(TodoList([]), "a", 0).0;
      var l2 := AddAsWritten(l1, "b", 0).0;
      var l3 := Remove(l2, 1).0;
      var r := AddAsWritten(l3, "c", 0);
      r.1 == 2 && !UniqueIds(r.0.items)
  {
    var l1 := AddAsWritten(TodoList([]), "a", 0).0;
    var l2 := AddAsWritten(l1, "b", 0).0;
    assert l2.items == [TodoItem(1, "a", false, 0), TodoItem(2, "b", false, 0)];
    var l3 := Remove(l2, 1).0;
    assert l3.items == [TodoItem(2, "b", false, 0)];
    var r := AddAsWritten(l3, "c", 0);
    assert r.0.items[0].id == r.0.items[1].id;
  }
}
