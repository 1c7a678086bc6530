/**
 * The call sequences of the registry's six unit tests, replayed on the
 * content functions the service's operations are proved to follow, with the
 * outcome each test expects stated as a postcondition.
 */
module Scenarios {
  import opened Wrappers
  import opened TaskModel
  import opened Registry

  /**
   * A new registry, project1 added, one task added: the task has identifier
   * 1 (one more than the tasks stored before), its description, is not done,
   * and is the only task listed under project1.
   */
  lemma AddProjectAndTask()
    ensures |Flatten(WithProject([], "project1"))| + 1 == 1
    ensures AppendTask(WithProject([], "project1"), "project1", TaskRecord(1, "Do something", false, None))
         == [Project("project1", [TaskRecord(1, "Do something", false, None)])]
  {
    assert Names([]) == [];
    var r0 := WithProject([], "project1");
    assert r0 == [Project("project1", [])];
    var r1 := AppendTask(r0, "project1", TaskRecord(1, "Do something", false, None));
    assert r1[0] == Project("project1", [TaskRecord(1, "Do something", false, None)]);
  }

  /**
   * In a new registry no project is registered, so adding a task to
   * "missing" takes the ProjectNotFound branch.
   */
  lemma AddToUnknownProject()
    ensures "missing" !in Names([])
  {
    assert Names([]) == [];
  }

  /** A deadline set on the only task is the deadline that task then has. */
  lemma SetDeadlineOnTask(d: Date)
    ensures ApplyChange(AppendTask(WithProject([], "p"), "p", TaskRecord(1, "Deadline task", false, None)), 1, Reschedule(Some(d)))
         == [Project("p", [TaskRecord(1, "Deadline task", false, Some(d))])]
  {
    assert Names([]) == [];
    var r0 := WithProject([], "p");
    assert r0 == [Project("p", [])];
    var r1 := AppendTask(r0, "p", TaskRecord(1, "Deadline task", false, None));
    assert r1[0] == Project("p", [TaskRecord(1, "Deadline task", false, None)]);
    var r2 := ApplyChange(r1, 1, Reschedule(Some(d)));
    assert r2[0] == Project("p", [TaskRecord(1, "Deadline task", false, Some(d))]);
  }

  /** Checking the only task makes it done; unchecking it afterwards makes it not done. */
  lemma CheckAndUncheck()
    ensures var r1 := AppendTask(WithProject([], "proj"), "proj", TaskRecord(1, "done task", false, None));
      var checked := ApplyChange(r1, 1, MarkDone(true));
      var unchecked := ApplyChange(checked, 1, MarkDone(false));
      && checked == [Project("proj", [TaskRecord(1, "done task", true, None)])]
      && unchecked == [Project("proj", [TaskRecord(1, "done task", false, None)])]
  {
    assert Names([]) == [];
    var r0 := WithProject([], "proj");
    assert r0 == [Project("proj", [])];
    var r1 := AppendTask(r0, "proj", TaskRecord(1, "done task", false, None));
    assert r1[0] == Project("proj", [TaskRecord(1, "done task", false, None)]);
    var checked := ApplyChange(r1, 1, MarkDone(true));
    assert checked[0] == Project("proj", [TaskRecord(1, "done task", true, None)]);
    var unchecked := ApplyChange(checked, 1, MarkDone(false));
    assert unchecked[0] == Project("proj", [TaskRecord(1, "done task", false, None)]);
  }

  /** The content the unit tests build: project x with three tasks, none done or scheduled. */
  function ThreeTasks(x: string): seq<Project>
  {
    [Project(x, [TaskRecord(1, "task 1", false, None),
                 TaskRecord(2, "task 2", false, None),
                 TaskRecord(3, "task 3", false, None)])]
  }

  /** Adding project x and then three tasks to it yields ThreeTasks(x), identifiers 1, 2, 3 in order. */
  lemma ThreeTasksBuilt(x: string)
    ensures AppendTask(AppendTask(AppendTask(WithProject([], x),
              x, TaskRecord(1, "task 1", false, None)),
              x, TaskRecord(2, "task 2", false, None)),
              x, TaskRecord(3, "task 3", false, None)) == ThreeTasks(x)
  {
    var t1, t2, t3 := TaskRecord(1, "task 1", false, None), TaskRecord(2, "task 2", false, None), TaskRecord(3, "task 3", false, None);
    var r0 := WithProject([], x);
    assert Names([])  == [];
    assert r0 == [Project(x, [])];
    var r1 := AppendTask(r0, x, t1);
    assert r1[0] == Project(x, [t1]);
    var r2 := AppendTask(r1, x, t2);
    assert r2[0] == Project(x, [t1, t2]);
    var r3 := AppendTask(r2, x, t3);
    assert r3[0] == Project(x, [t1, t2, t3]);
  }

  /**
   * Project proj with tasks "today" and "tomorrow", given those deadlines:
   * only the first is due today.
   */
  lemma DueTodayOnlyToday(today: Date)
    ensures var rows := ApplyChange(ApplyChange(
              AppendTask(AppendTask(WithProject([], "proj"),
                "proj", TaskRecord(1, "today", false, None)),
                "proj", TaskRecord(2, "tomorrow", false, None)),
              1, Reschedule(Some(today))), 2, Reschedule(Some(today + 1)));
      DueToday(rows, today) == [TaskRecord(1, "today", false, Some(today))]
  {
    var t1, t2 := TaskRecord(1, "today", false, None), TaskRecord(2, "tomorrow", false, None);
    var r0 := WithProject([], "proj");
    assert Names([]) == [];
    assert r0 == [Project("proj", [])];
    var r1 := AppendTask(r0, "proj", t1);
    assert r1[0] == Project("proj", [t1]);
    var r2 := AppendTask(r1, "proj", t2);
    assert r2[0] == Project("proj", [t1, t2]);
    var rows := ApplyChange(ApplyChange(r2, 1, Reschedule(Some(today))), 2, Reschedule(Some(today + 1)));
    var ts := rows[0].tasks;
    assert ts == [t1.(deadline := Some(today)), t2.(deadline := Some(today + 1))];
    assert rows[..0] == [];
    assert Flatten(rows) == ts;
    TakeAll(ts);
    OnlyTakeStep(ts, 1, Some(today));
    OnlyTakeStep(ts, 0, Some(today));
  }

  /**
   * Tasks 1 and 2 with two different dates, task 3 with none: the deadline
   * view has three entries, the earlier date, the later date, and the entry
   * for no deadline last.
   */
  lemma GroupedThreeEntries(d1: Date, d2: Date, g: seq<DeadlineGroup>)
    requires d1 < d2
    requires IsGroupedView(ApplyChange(ApplyChange(ThreeTasks("x"), 1, Reschedule(Some(d1))), 2, Reschedule(Some(d2))), g)
    ensures Keys(g) == [Some(d1), Some(d2), None]
  {
    var rows := ApplyChange(ApplyChange(ThreeTasks("x"), 1, Reschedule(Some(d1))), 2, Reschedule(Some(d2)));
    var ts := rows[0].tasks;
    assert ts == [TaskRecord(1, "task 1", false, Some(d1)),
                  TaskRecord(2, "task 2", false, Some(d2)),
                  TaskRecord(3, "task 3", false, None)];
    assert rows[..0] == [];
    assert Flatten(rows) == ts;
    assert Deadlines(rows) == {Some(d1), Some(d2), None} by {
      assert ts[0] in Flatten(rows) && ts[1] in Flatten(rows) && ts[2] in Flatten(rows);
    }
    GroupedKeysAreDeadlines(rows, g);
    var keys := Keys(g);
    assert |keys| == 3;
    assert Some(d1) in keys && Some(d2) in keys && None in keys;
    assert KeyBefore(keys[0], keys[1]) && KeyBefore(keys[1], keys[2]);
  }
}
