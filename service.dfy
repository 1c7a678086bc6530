/**
 * The task service: the one registry object both front ends share. It holds
 * the projects in registration order, each with its list of task objects,
 * and the last identifier it handed out. Every operation is proved against
 * the value-level functions of module Registry, applied to Rows().
 */
module Service {
  import opened Wrappers
  import opened TaskModel
  import opened Registry

  /** Every task object stored under some project of m. */
  ghost function TasksIn(m: map<string, seq<Task>>): set<Task>
  {
    set p, t | p in m && t in m[p] :: t
  }

  /** Appending task to the list of a known project adds exactly task to the stored objects. */
  lemma TasksInAppend(m: map<string, seq<Task>>, name: string, task: Task)
    requires name in m
    ensures TasksIn(m[name := m[name] + [task]]) == TasksIn(m) + {task}
  {
    var m' := m[name := m[name] + [task]];
    forall u | u in TasksIn(m) ensures u in TasksIn(m') {
      var p :| p in m && u in m[p];
      assert u in m'[p];
    }
    assert task in m'[name];
  }

  /** No two different task objects of ts share an identifier. */
  predicate IdsDistinct(ts: set<Task>)
  {
    forall u, v :: u in ts && v in ts && u != v ==> u.id != v.id
  }

  /** No task object of ts has an identifier above n. */
  predicate IdsAtMost(ts: set<Task>, n: int)
  {
    forall u :: u in ts ==> u.id <= n
  }

  /** Adding a task numbered one past every stored identifier keeps identifiers distinct. */
  lemma FreshIdKeepsDistinct(ts: set<Task>, task: Task, lastId: int)
    requires IdsDistinct(ts) && IdsAtMost(ts, lastId) && task.id == lastId + 1
    ensures IdsDistinct(ts + {task}) && IdsAtMost(ts + {task}, lastId + 1)
  {
  }

  /** Registering a new name with no tasks stores no new task object. */
  lemma TasksInNew(m: map<string, seq<Task>>, name: string)
    requires name !in m
    ensures TasksIn(m[name := []]) == TasksIn(m)
  {
    var m' := m[name := []];
    forall u | u in TasksIn(m) ensures u in TasksIn(m') {
      var p :| p in m && u in m[p];
      assert u in m'[p];
    }
  }

  /** The current values of the tasks ts. */
  function Snapshots(ts: seq<Task>): (r: seq<TaskRecord>)
    reads ts
    ensures |r| == |ts| && forall b :: 0 <= b < |ts| ==> r[b] == ts[b].Snapshot()
  {
    seq(|ts|, b requires 0 <= b < |ts| reads ts => ts[b].Snapshot())
  }

  /** Tasks whose fields are all as they were still have the values they had. */
  twostate lemma SnapshotsKept(ts: seq<Task>)
    requires forall u :: u in ts ==> unchanged(u)
    ensures Snapshots(ts) == old(Snapshots(ts))
  {
    forall b | 0 <= b < |ts| ensures ts[b].Snapshot() == old(ts[b].Snapshot()) {
      assert ts[b] in ts;
    }
  }

  /** The projects named in names, in that order, with the current values of their tasks. */
  function RowsOf(names: seq<string>, m: map<string, seq<Task>>): (r: seq<Project>)
    reads TasksIn(m)
    ensures |r| == |names|
    ensures forall a :: 0 <= a < |names| ==>
      r[a] == Project(names[a], Snapshots(if names[a] in m then m[names[a]] else []))
  {
    seq(|names|, a requires 0 <= a < |names| reads TasksIn(m) =>
      var ts := if names[a] in m then m[names[a]] else [];
      assert forall t | t in ts :: t in TasksIn(m);
      Project(names[a], Snapshots(ts)))
  }

  class TaskService {
    /** The project names in the order they were first added (the key order of the source's linked map). */
    var order: seq<string>
    var tasksByProject: map<string, seq<Task>>
    var lastId: int

    ghost function Tasks(): set<Task>
      reads this
    {
      TasksIn(tasksByProject)
    }

    /** The registry's content: every project in registration order with its tasks in insertion order. */
    function Rows(): seq<Project>
      reads this, Tasks()
    {
      RowsOf(order, tasksByProject)
    }

    /** The name list and the map have the same names. */
    ghost predicate Keyed()
      reads this
    {
      forall p :: p in tasksByProject <==> p in order
    }

    /**
     * The object invariant: the name list and the map have the same names,
     * each once, the stored tasks are numbered as WellNumbered says, and the
     * counter equals the number of stored tasks (tasks are never removed).
     * The last two conjuncts say the same of the task objects themselves:
     * two different objects never share an identifier, and none exceeds
     * lastId.
     */
    ghost predicate Valid()
      reads this, Tasks()
    {
      && Keyed()
      && DistinctNames(Rows())
      && 0 <= lastId
      && WellNumbered(Rows(), lastId)
      && lastId == |Flatten(Rows())|
      && IdsDistinct(Tasks())
      && IdsAtMost(Tasks(), lastId)
    }

    /** An empty registry; the first identifier handed out will be 1. */
    constructor ()
      ensures Valid() && Rows() == [] && lastId == 0
    {
      order := [];
      tasksByProject := map[];
      lastId := 0;
    }

    /** addProject: registers name with no tasks, or does nothing if it is already registered. */
    method AddProject(name: string)
      requires Valid()
      modifies this
      ensures Valid()
      ensures Rows() == WithProject(old(Rows()), name)
      ensures lastId == old(lastId)
    {
      ghost var before := Rows();
      assert Names(before) == order;
      if name in tasksByProject {
        return;
      }
      TasksInNew(tasksByProject, name);
      order := order + [name];
      tasksByProject := tasksByProject[name := []];
      RowsAfterNewProject(name);
      ValidAfterNewProject(name);
    }

    /** Registering a new name with no tasks keeps the object invariant. */
    twostate lemma ValidAfterNewProject(name: string)
      requires old(Valid()) && lastId == old(lastId) && Keyed() && Tasks() == old(Tasks())
      requires name !in Names(old(Rows())) && Rows() == old(Rows()) + [Project(name, [])]
      ensures Valid()
    {
      AddProjectKeepsInvariant(old(Rows()), name, lastId);
    }

    /**
     * After a new name has been registered with no tasks (and no stored task
     * has changed), the registry's content is the old content with that
     * project appended.
     */
    twostate lemma RowsAfterNewProject(name: string)
      requires name !in old(tasksByProject)
      requires order == old(order) + [name] && tasksByProject == old(tasksByProject)[name := []]
      requires forall p, u :: p in old(tasksByProject) && u in old(tasksByProject)[p] ==> unchanged(u)
      ensures Rows() == old(Rows()) + [Project(name, [])]
    {
      forall a | 0 <= a < |old(order)| ensures Rows()[a] == old(Rows())[a] {
        if old(order)[a] in old(tasksByProject) {
          SnapshotsKept(old(tasksByProject)[old(order)[a]]);
        }
      }
    }

    /**
     * addTask: fails with ProjectNotFound, changing nothing, when the project
     * is unknown; otherwise creates a task with the next identifier (one more
     * than the number of tasks stored so far), not done and without
     * deadline, stores it at the end of the project's list and returns it.
     */
    method AddTask(projectName: string, description: string) returns (r: Result<Task, Error>)
      requires Valid()
      modifies this
      ensures Valid()
      ensures projectName !in Names(old(Rows())) ==> r == Failure(ProjectNotFound) && unchanged(this)
      ensures projectName in Names(old(Rows())) ==>
        && r.Success? && fresh(r.value)
        && r.value.Snapshot() == TaskRecord(old(lastId) + 1, description, false, None)
        && r.value.id == |Flatten(old(Rows()))| + 1
        && r.value in Tasks()
        && lastId == old(lastId) + 1
        && Rows() == AppendTask(old(Rows()), projectName, r.value.Snapshot())
    {
      ghost var before := Rows();
      assert Names(before) == order && lastId == |Flatten(before)|;
      if projectName !in tasksByProject {
        return Failure(ProjectNotFound);
      }
      var projectTasks := tasksByProject[projectName];
      var id := NextId();
      var task := new Task(id, description);
      tasksByProject := tasksByProject[projectName := projectTasks + [task]];
      TasksInAppend(old(tasksByProject), projectName, task);
      RowsAfterAppend((projectName, task));
      ValidAfterAppend((projectName, task));
      return Success(task);
    }

    /**
     * Storing, under a registered name, a task numbered with the advanced
     * counter keeps the object invariant. The name and the task are passed as
     * one pair, as in RowsAfterAppend.
     */
    twostate lemma ValidAfterAppend(new added: (string, Task))
      requires old(Valid()) && Keyed() && lastId == old(lastId) + 1 && added.1.id == lastId
      requires Tasks() == old(Tasks()) + {added.1}
      requires added.0 in Names(old(Rows())) && Rows() == AppendTask(old(Rows()), added.0, added.1.Snapshot())
      ensures Valid()
    {
      var (name, task) := added;
      FreshIdKeepsDistinct(old(Tasks()), task, old(lastId));
      AddTaskKeepsInvariant(old(Rows()), name, task.Snapshot(), old(lastId));
      AddTaskCount(old(Rows()), name, task.Snapshot());
    }

    /**
     * After a task has been appended to the list of a known project (and
     * nothing stored before has changed), the registry's content is the old
     * content with the task's value appended to that project. The project
     * name and the task are passed as one pair: Dafny 4.11 fails to translate
     * this lemma with two parameters when contradictory assumptions are
     * checked, and the pair avoids that.
     */
    twostate lemma RowsAfterAppend(new added: (string, Task))
      requires old(Keyed())
      requires added.0 in old(tasksByProject) && order == old(order)
      requires tasksByProject == old(tasksByProject)[added.0 := old(tasksByProject)[added.0] + [added.1]]
      requires forall p, u :: p in old(tasksByProject) && u in old(tasksByProject)[p] ==> unchanged(u)
      ensures Rows() == AppendTask(old(Rows()), added.0, added.1.Snapshot())
    {
      var (name, task) := added;
      ghost var after := AppendTask(old(Rows()), name, task.Snapshot());
      forall a | 0 <= a < |order| ensures Rows()[a] == after[a] {
        var ts := old(tasksByProject)[order[a]];
        SnapshotsKept(ts);
        if order[a] == name {
          assert Snapshots(ts + [task]) == Snapshots(ts) + [task.Snapshot()];
        }
      }
    }

    /** setDeadline: overwrites the deadline of the task with identifier id, or fails with TaskNotFound. */
    method SetDeadline(id: int, deadline: Option<Date>) returns (r: Outcome<Error>)
      requires Valid()
      modifies Tasks()
      ensures Valid()
      ensures r == if HasTask(old(Rows()), id) then Pass else Fail(TaskNotFound)
      ensures Rows() == ApplyChange(old(Rows()), id, Reschedule(deadline))
    {
      ghost var before := Rows();
      var found := FindTask(id);
      if found.None? {
        ChangeMissingIsIdentity(before, id, Reschedule(deadline));
        return Fail(TaskNotFound);
      }
      found.value.SetDeadline(deadline);
      RowsAfterChange((found.value, Reschedule(deadline)));
      ChangeKeepsInvariant(before, id, Reschedule(deadline), lastId);
      ChangeKeepsCount(before, id, Reschedule(deadline));
      return Pass;
    }

    /** setDone: overwrites the completion flag of the task with identifier id, or fails with TaskNotFound. */
    method SetDone(id: int, done: bool) returns (r: Outcome<Error>)
      requires Valid()
      modifies Tasks()
      ensures Valid()
      ensures r == if HasTask(old(Rows()), id) then Pass else Fail(TaskNotFound)
      ensures Rows() == ApplyChange(old(Rows()), id, MarkDone(done))
    {
      ghost var before := Rows();
      var found := FindTask(id);
      if found.None? {
        ChangeMissingIsIdentity(before, id, MarkDone(done));
        return Fail(TaskNotFound);
      }
      found.value.SetDone(done);
      RowsAfterChange((found.value, MarkDone(done)));
      ChangeKeepsInvariant(before, id, MarkDone(done), lastId);
      ChangeKeepsCount(before, id, MarkDone(done));
      return Pass;
    }

    /**
     * After one stored task has been changed by a change (the pair edited),
     * and every other stored task, none of which shares its identifier, is
     * as it was, the registry's content is the old content with the change
     * applied to that identifier.
     */
    twostate lemma RowsAfterChange(edited: (Task, Change))
      requires old(Keyed()) && unchanged(this)
      requires edited.0 in old(Tasks())
      requires forall u :: u in old(Tasks()) && u != edited.0 ==> unchanged(u) && u.id != edited.0.id
      requires edited.0.Snapshot() == Apply(edited.1, old(edited.0.Snapshot()))
      ensures Rows() == ApplyChange(old(Rows()), edited.0.id, edited.1)
    {
      var (t, c) := edited;
      ghost var after := ApplyChange(old(Rows()), t.id, c);
      forall a | 0 <= a < |order| ensures Rows()[a] == after[a] {
        var ts := tasksByProject[order[a]];
        forall b | 0 <= b < |ts|
          ensures ts[b].Snapshot() == if ts[b].id == t.id then Apply(c, old(ts[b].Snapshot())) else old(ts[b].Snapshot())
        {
          assert ts[b] in old(Tasks()) by {
            assert order[a] in tasksByProject && ts[b] in tasksByProject[order[a]];
          }
        }
        assert Rows()[a].tasks == ChangeIn(old(Rows())[a].tasks, t.id, c);
      }
    }

    /** findTask: the stored task with identifier id, scanning projects and tasks in order. */
    method FindTask(id: int) returns (r: Option<Task>)
      requires Keyed()
      ensures r.Some? ==> r.value in Tasks() && r.value.id == id
      ensures r.None? <==> !HasTask(Rows(), id)
    {
      ghost var rows := Rows();
      var i := 0;
      while i < |order|
        invariant 0 <= i <= |order|
        invariant forall a, b :: 0 <= a < i && At(rows, a, b) ==> rows[a].tasks[b].id != id
      {
        var tasks := tasksByProject[order[i]];
        var j := 0;
        while j < |tasks|
          invariant 0 <= j <= |tasks|
          invariant forall b :: 0 <= b < j ==> tasks[b].id != id
        {
          if tasks[j].id == id {
            assert At(rows, i, j) && tasks[j] in tasksByProject[order[i]];
            return Some(tasks[j]);
          }
          j := j + 1;
        }
        i := i + 1;
      }
      return None;
    }

    /** nextId: advances the counter and returns its new value. */
    method NextId() returns (id: int)
      modifies this`lastId
      ensures lastId == old(lastId) + 1 && id == lastId
    {
      lastId := lastId + 1;
      id := lastId;
    }

    /** getAllTasks: the whole registry, projects and tasks in insertion order. */
    method GetAllTasks() returns (r: seq<Project>)
      requires Valid()
      ensures r == Rows()
    {
      r := Rows();
    }

    /** getTasksDueToday: the tasks whose deadline is today, projects and tasks in order. */
    method GetTasksDueToday(today: Date) returns (r: seq<TaskRecord>)
      requires Valid()
      ensures r == DueToday(Rows(), today)
    {
      ghost var rows := Rows();
      r := ScanDueToday(Rows(), today);
      assert Rows() == rows;
    }

    /**
     * getTasksGroupedByDeadline: files every task under its deadline (dates
     * ascending, no deadline last) and, inside that, under its project.
     */
    method GetTasksGroupedByDeadline() returns (g: seq<DeadlineGroup>)
      requires Valid()
      ensures IsGroupedView(Rows(), g)
    {
      ghost var rows := Rows();
      g := GroupByDeadline(Rows());
      assert Rows() == rows;
    }
  }
}
