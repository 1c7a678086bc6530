# Task registry model

This project models the task registry of a small task-list application,
written in Dafny. The registry is the `TaskService` class together with the
`Task` objects it owns. It keeps projects in the order they were added. Each
project has its tasks in insertion order. One counter numbers every task the
registry creates.

- `task.dfy` (module `TaskModel`): the mutable `Task` class. Its identifier
  and description are fixed. Its completion flag and optional deadline can be
  overwritten. `Snapshot()` gives its current value as a `TaskRecord`.
- `service.dfy` (module `Service`): the `TaskService` class, with the same
  state as the Java class. `order` is the key order of the linked hash map,
  `tasksByProject` maps names to task lists, and `lastId` is the counter.
  Every operation is a method. Each method's postcondition relates the new
  content, `Rows()`, to the old one through a function of `Registry`.
  The object invariant `Valid()` says four things:
  - names are unique;
  - every identifier lies in `1..lastId` and belongs to exactly one task;
  - identifiers increase within each project;
  - `lastId` equals the number of stored tasks, because tasks are never removed.
- `registry.dfy` (module `Registry`): the registry's content as values. It
  holds the functions that specify each operation (`WithProject`,
  `AppendTask`, `ApplyChange`, `DueToday`, and the deadline view through
  `IsGroupedView`), plus the lemmas stating what those functions keep and
  guarantee. It also holds the two nested scans the views perform
  (`ScanDueToday`, `GroupByDeadline`), proved against those specifications.
  Its `Error` type has the two failures: `ProjectNotFound` for the
  `IllegalArgumentException` of `addTask`, and `TaskNotFound` for the
  `NoSuchElementException` of `findTask`.
- `scenarios.dfy` (module `Scenarios`): the call sequences of all six tests
  in `TaskServiceTest`, replayed on the specification functions.
- `wrappers.dfy` (module `Wrappers`): `Option`, `Result` and `Outcome`. A
  thrown exception becomes a `Failure`/`Fail` value carrying an `Error`.

A date is an `int` day number, because the registry only compares dates for
equality and order. A `null` deadline is `None`. The deadline view orders
its keys with `KeyBefore`: dates ascending, with "no deadline" after every
date, as `Comparator.nullsLast(naturalOrder())` does. The view is a sequence
of `DeadlineGroup(deadline, projects)` entries. Under each deadline, it lists
the projects in registration order, each with its tasks in insertion order.

## Model

| member | source | states |
|---|---|---|
| TaskModel.Task.constructor | java/src/main/java/com/ortecfinance/tasklist/model/Task.java:11-17 | a new task has the given id and description, is not done and has no deadline; `Snapshot()` reads the four fields the getters of Task.java:19-37 return |
| TaskModel.Task.SetDone | java/src/main/java/com/ortecfinance/tasklist/model/Task.java:31-33 | the flag becomes the argument; id, description and deadline are unchanged |
| TaskModel.Task.SetDeadline | java/src/main/java/com/ortecfinance/tasklist/model/Task.java:38-40 | the deadline becomes the argument (None clears it); id, description and flag are unchanged |
| Service.TaskService.constructor | java/src/main/java/com/ortecfinance/tasklist/service/TaskService.java:10-11 | an empty registry with counter 0 satisfies the invariant |
| Service.TaskService.AddProject | java/src/main/java/com/ortecfinance/tasklist/service/TaskService.java:13-15 | the invariant is kept; a new name is appended with no tasks, a known name changes nothing; the counter is unchanged |
| Service.TaskService.AddTask | java/src/main/java/com/ortecfinance/tasklist/service/TaskService.java:17-23 | an unknown project gives ProjectNotFound, and the object, counter included, is unchanged; otherwise a fresh task is created, with id old lastId + 1 (one more than the number of tasks stored before), the description, not done and no deadline; it is appended to that project only; the returned object is the stored one; and the invariant, including counter = task count, is kept |
| Service.TaskService.NextId | java/src/main/java/com/ortecfinance/tasklist/service/TaskService.java:73-75 | the counter advances by one and its new value is returned |
| Service.TaskService.FindTask | java/src/main/java/com/ortecfinance/tasklist/service/TaskService.java:64-71 | returns a stored task with the given id, and returns None exactly when no stored task has that id |
| Service.TaskService.SetDeadline | java/src/main/java/com/ortecfinance/tasklist/service/TaskService.java:25-28 | TaskNotFound exactly when no task has the id; the content becomes ApplyChange with that deadline, which is the identity on the failure path; the invariant is kept |
| Service.TaskService.SetDone | java/src/main/java/com/ortecfinance/tasklist/service/TaskService.java:30-33 | TaskNotFound exactly when no task has the id; the content becomes ApplyChange with that flag, which is the identity on the failure path; the invariant is kept |
| Service.TaskService.GetAllTasks | java/src/main/java/com/ortecfinance/tasklist/service/TaskService.java:35-37 | returns the whole content, projects and tasks in order |
| Service.TaskService.GetTasksDueToday | java/src/main/java/com/ortecfinance/tasklist/service/TaskService.java:39-50 | returns DueToday of the content, whose meaning DueTodayExact states |
| Service.TaskService.GetTasksGroupedByDeadline | java/src/main/java/com/ortecfinance/tasklist/service/TaskService.java:52-62 | returns a view satisfying IsGroupedView for the content, whose meaning the Grouped lemmas state |
| Registry.ScanDueToday | java/src/main/java/com/ortecfinance/tasklist/service/TaskService.java:41-49 | the nested scan collects exactly DueToday: the tasks whose deadline is set and equal to today, in project-then-insertion order |
| Registry.GroupByDeadline | java/src/main/java/com/ortecfinance/tasklist/service/TaskService.java:53-61 | for distinct project names, the nested scan with the two computeIfAbsent steps builds a view with sorted keys and no empty entry, where each deadline holds exactly that deadline's bucket |
| Registry.PutIn | java/src/main/java/com/ortecfinance/tasklist/service/TaskService.java:56-58 | filing one task keeps the keys sorted; the first entry is the new key or the old first entry |
| Registry.PutInLookup | java/src/main/java/com/ortecfinance/tasklist/service/TaskService.java:56-58 | filing a task under (k, p) sets k's project list to `AddToProject` of the old one, and leaves every other deadline's entry as it was; `AddToProject` appends the task to p's list, creating that list at the end when p is new, as the inner computeIfAbsent and add do |
| Registry.PutInNonEmpty | java/src/main/java/com/ortecfinance/tasklist/service/TaskService.java:56-57 | filing a task never creates an empty entry |
| Registry.AddProjectIdempotent | java/src/main/java/com/ortecfinance/tasklist/service/TaskService.java:13-15 | after addProject the name is registered, and adding it a second time changes nothing |
| Registry.AddProjectKeepsInvariant | java/src/main/java/com/ortecfinance/tasklist/service/TaskService.java:13-15 | addProject keeps names distinct, the numbering invariant and the task count |
| Registry.AddTaskKeepsInvariant | java/src/main/java/com/ortecfinance/tasklist/service/TaskService.java:17-23 | appending a task with id lastId + 1 keeps the names and their order, and keeps every id in 1..lastId+1, unique across projects and increasing within each project |
| Registry.AddTaskCount | java/src/main/java/com/ortecfinance/tasklist/service/TaskService.java:17-23 | addTask on a known project adds exactly one task to the registry |
| Registry.ChangeKeepsInvariant | java/src/main/java/com/ortecfinance/tasklist/service/TaskService.java:25-33 | setDeadline and setDone keep the project names and the numbering invariant |
| Registry.ChangeKeepsCount | java/src/main/java/com/ortecfinance/tasklist/service/TaskService.java:25-33 | setDeadline and setDone neither add nor remove a task, so the counter still equals the task count |
| Registry.ChangeMissingIsIdentity | java/src/main/java/com/ortecfinance/tasklist/service/TaskService.java:64-71 | a change to an id no task has leaves the content unchanged |
| Registry.ChangeTargetsOneTask | java/src/main/java/com/ortecfinance/tasklist/service/TaskService.java:25-33 | a change to a stored id alters exactly that task by that field; every other task and every name stays |
| Registry.ChangeOverwrites | java/src/main/java/com/ortecfinance/tasklist/model/Task.java:31-40 | a later setDone or setDeadline on the same task overrides an earlier one of the same kind, so marking done is idempotent |
| Registry.OnlyMembers | java/src/main/java/com/ortecfinance/tasklist/service/TaskService.java:44 | the filter keeps a task exactly when it is in the list and its deadline equals the key |
| Registry.FlattenMembership | java/src/main/java/com/ortecfinance/tasklist/service/TaskService.java:42-43 | the flattened scan order contains exactly the tasks stored at some (project, position) |
| Registry.DueTodayExact | java/src/main/java/com/ortecfinance/tasklist/service/TaskService.java:39-50 | a task is due today exactly when it is stored and its deadline is set and equal to today |
| Registry.FlattenBucket | java/src/main/java/com/ortecfinance/tasklist/service/TaskService.java:52-62 | the deadline-k bucket, flattened, is the deadline-k filter of all tasks in scan order |
| Registry.GroupedTodayIsDueToday | java/src/main/java/com/ortecfinance/tasklist/service/TaskService.java:39-62 | the grouped view's entry for today, flattened, equals the due-today list |
| Registry.GroupedKeysAreDeadlines | java/src/main/java/com/ortecfinance/tasklist/service/TaskService.java:52-62 | the view's keys are exactly the distinct deadline values ("no deadline" once), and there are as many entries as such values |
| Registry.GroupedBucketIsFilter | java/src/main/java/com/ortecfinance/tasklist/service/TaskService.java:54-58 | under deadline k and project p, the view lists exactly p's tasks with deadline k, in p's insertion order |
| Registry.GroupedPartition | java/src/main/java/com/ortecfinance/tasklist/service/TaskService.java:52-62 | every stored task appears under exactly one (deadline, project) pair: its own deadline and its own project |
| Registry.BucketNonEmpty | java/src/main/java/com/ortecfinance/tasklist/service/TaskService.java:56-57 | a project list exists under deadline k exactly when some task has deadline k |
| Registry.GroupedStep | java/src/main/java/com/ortecfinance/tasklist/service/TaskService.java:54-58 | filing the next task of the scan turns the view of the scanned prefix into the view of the prefix extended by that task |
| Scenarios.AddProjectAndTask | java/src/test/java/com/ortecfinance/tasklist/service/TaskServiceTest.java:21-33 | in a new registry the first task gets id 1 (task count + 1), keeps its description, is not done, and is the only task under project1 |
| Scenarios.AddToUnknownProject | java/src/test/java/com/ortecfinance/tasklist/service/TaskServiceTest.java:34-39 | a new registry has no project "missing", so addTask on it takes the ProjectNotFound branch |
| Scenarios.SetDeadlineOnTask | java/src/test/java/com/ortecfinance/tasklist/service/TaskServiceTest.java:40-49 | after setDeadline the task's deadline is the date set, and nothing else changed |
| Scenarios.CheckAndUncheck | java/src/test/java/com/ortecfinance/tasklist/service/TaskServiceTest.java:50-60 | setDone true makes the task done; a following setDone false makes it not done again |
| Scenarios.ThreeTasksBuilt | java/src/test/java/com/ortecfinance/tasklist/service/TaskServiceTest.java:79-82 | adding a project and three tasks yields ids 1, 2, 3 in insertion order, none done or scheduled |
| Scenarios.DueTodayOnlyToday | java/src/test/java/com/ortecfinance/tasklist/service/TaskServiceTest.java:61-76 | adding a project, tasks "today" and "tomorrow", and giving them deadlines today and today + 1, leaves exactly the first due today |
| Scenarios.GroupedThreeEntries | java/src/test/java/com/ortecfinance/tasklist/service/TaskServiceTest.java:77-97 | with two different dates and one task without deadline, the view has exactly the keys d1, d2 and "no deadline", in that order |

## Left out

- The clock: `getTasksDueToday` reads `LocalDate.now()` (TaskService.java:40); here `today` is a parameter.
- Calendar arithmetic, date parsing and date formatting. A date is an abstract day number compared by `==` and `<`.
- The console front end, the HTTP controller and the application start-up. These are I/O and framework glue around the registry.
- Concurrency: the two front ends may share one registry, and the model is sequential.
- Aliasing. `getAllTasks` returns the live map, and the views hand out the shared `Task` objects. The model's views return value snapshots. A caller's later mutation through those references is not modelled.
- Service.TaskService.AddTask: `lastId` is a Java `long`. Overflow after 2^63 - 1 tasks is not modelled, because the counter here is an unbounded integer.
- Exceptions are modelled as `Result`/`Outcome` values. The messages ("Project not found", "Task with ID … not found.") are not modelled.
- Service.TaskService.FindTask requires only that the name list and the map agree. The Java method has no precondition; the condition is part of the object invariant, which every caller holds.
- Service.TaskService.GetAllTasks and the view methods require the object invariant. The Java methods have no precondition; every operation preserves the invariant, so a reachable registry meets it.
- The six tests of `TaskServiceTest` are replayed on the content functions, not by driving a `TaskService` object. The service methods are proved to produce exactly those functions' results.
