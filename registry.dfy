/**
 * The registry's content as values: projects in registration order, each
 * with its tasks in insertion order. The functions here say what each
 * operation of the task service does to that content and what the two
 * derived views contain; the lemmas state the properties the service keeps.
 */
module Registry {
  import opened Wrappers
  import opened TaskModel

  /** One project: its name and its tasks, oldest first. */
  datatype Project = Project(name: string, tasks: seq<TaskRecord>)

  /** One entry of the deadline view: a deadline (None: no deadline) and its projects. */
  datatype DeadlineGroup = DeadlineGroup(deadline: Option<Date>, projects: seq<Project>)

  /** The two ways a registry operation can fail. */
  datatype Error = ProjectNotFound | TaskNotFound

  /** The two ways a task can be changed after creation. */
  datatype Change = MarkDone(done: bool) | Reschedule(deadline: Option<Date>)

  function Apply(c: Change, t: TaskRecord): TaskRecord
  {
    match c
    case MarkDone(b) => t.(done := b)
    case Reschedule(d) => t.(deadline := d)
  }

  // ---------------------------------------------------------------------
  // Projects, positions and identifiers

  function Names(rows: seq<Project>): seq<string>
  {
    seq(|rows|, a requires 0 <= a < |rows| => rows[a].name)
  }

  predicate DistinctNames(rows: seq<Project>)
  {
    forall a, c :: 0 <= a < c < |rows| ==> rows[a].name != rows[c].name
  }

  /** (a, b) is the position of a task: project a, b-th task of it. */
  predicate At(rows: seq<Project>, a: int, b: int)
  {
    0 <= a < |rows| && 0 <= b < |rows[a].tasks|
  }

  ghost predicate HasTask(rows: seq<Project>, id: int)
  {
    exists a, b :: At(rows, a, b) && rows[a].tasks[b].id == id
  }

  /**
   * The numbering invariant: every identifier lies in 1..lastId, no two
   * positions share one, and within a project identifiers increase in
   * insertion order.
   */
  ghost predicate WellNumbered(rows: seq<Project>, lastId: int)
  {
    && (forall a, b {:trigger At(rows, a, b)} :: At(rows, a, b) ==> 1 <= rows[a].tasks[b].id <= lastId)
    && (forall a, b, c, d {:trigger At(rows, a, b), At(rows, c, d)} ::
          At(rows, a, b) && At(rows, c, d) && rows[a].tasks[b].id == rows[c].tasks[d].id ==> a == c && b == d)
    && (forall a, b, c {:trigger At(rows, a, b), At(rows, a, c)} :: At(rows, a, b) && At(rows, a, c) && b < c ==> rows[a].tasks[b].id < rows[a].tasks[c].id)
  }

  // ---------------------------------------------------------------------
  // Mutations

  /** addProject: a new name is appended with no tasks; a known name changes nothing. */
  function WithProject(rows: seq<Project>, name: string): seq<Project>
  {
    if name in Names(rows) then rows else rows + [Project(name, [])]
  }

  /** addTask, once the project is known to exist: the record goes at the end of that project. */
  function AppendTask(rows: seq<Project>, name: string, t: TaskRecord): seq<Project>
  {
    seq(|rows|, a requires 0 <= a < |rows| =>
      if rows[a].name == name then Project(name, rows[a].tasks + [t]) else rows[a])
  }

  /** setDone / setDeadline: the task with identifier id, wherever it is, gets the change. */
  function ApplyChange(rows: seq<Project>, id: int, c: Change): seq<Project>
  {
    seq(|rows|, a requires 0 <= a < |rows| => Project(rows[a].name, ChangeIn(rows[a].tasks, id, c)))
  }

  function ChangeIn(ts: seq<TaskRecord>, id: int, c: Change): seq<TaskRecord>
  {
    seq(|ts|, b requires 0 <= b < |ts| => if ts[b].id == id then Apply(c, ts[b]) else ts[b])
  }

  lemma AddProjectIdempotent(rows: seq<Project>, name: string)
    ensures name in Names(WithProject(rows, name))
    ensures WithProject(WithProject(rows, name), name) == WithProject(rows, name)
  {
    if name !in Names(rows) {
      var r := rows + [Project(name, [])];
      assert Names(r)[|rows|] == name;
    }
  }

  lemma AddProjectKeepsInvariant(rows: seq<Project>, name: string, lastId: int)
    requires DistinctNames(rows) && WellNumbered(rows, lastId)
    ensures DistinctNames(WithProject(rows, name)) && WellNumbered(WithProject(rows, name), lastId)
    ensures |Flatten(WithProject(rows, name))| == |Flatten(rows)|
  {
    if name !in Names(rows) {
      var r := rows + [Project(name, [])];
      FlattenSnoc(rows, Project(name, []));
      forall a | 0 <= a < |rows| ensures rows[a].name != name {
        assert Names(rows)[a] == rows[a].name;
      }
      NumberingTransfer(rows, r, lastId, lastId);
    }
  }

  /** The numbering invariant carries over to rows whose tasks are tasks of the old rows, with the same identifiers. */
  lemma NumberingTransfer(rows: seq<Project>, r: seq<Project>, lastId: int, lastId': int)
    requires WellNumbered(rows, lastId) && lastId <= lastId'
    requires forall a, b :: At(r, a, b) ==> At(rows, a, b) && r[a].tasks[b].id == rows[a].tasks[b].id
    ensures WellNumbered(r, lastId')
  {
    forall a, b | At(r, a, b) ensures 1 <= r[a].tasks[b].id <= lastId' {
      assert At(rows, a, b);
    }
    forall a, b, c, d | At(r, a, b) && At(r, c, d) && r[a].tasks[b].id == r[c].tasks[d].id
      ensures a == c && b == d
    {
      assert At(rows, a, b) && At(rows, c, d);
    }
    forall a, b, c | At(r, a, b) && At(r, a, c) && b < c ensures r[a].tasks[b].id < r[a].tasks[c].id {
      assert At(rows, a, b) && At(rows, a, c);
    }
  }

  /**
   * addTask with the next identifier keeps the numbering invariant: the new
   * identifier exceeds every stored one, so it is fresh and it is the largest
   * in its project.
   */
  lemma AddTaskKeepsInvariant(rows: seq<Project>, name: string, t: TaskRecord, lastId: int)
    requires DistinctNames(rows) && WellNumbered(rows, lastId) && 0 <= lastId && t.id == lastId + 1
    ensures DistinctNames(AppendTask(rows, name, t)) && WellNumbered(AppendTask(rows, name, t), lastId + 1)
    ensures Names(AppendTask(rows, name, t)) == Names(rows)
  {
    var r := AppendTask(rows, name, t);
    forall a, b | At(r, a, b)
      ensures r[a].tasks[b].id == if b < |rows[a].tasks| then rows[a].tasks[b].id else lastId + 1
      ensures 1 <= r[a].tasks[b].id <= lastId + 1
      ensures r[a].tasks[b].id <= lastId <==> b < |rows[a].tasks|
    {
      if b < |rows[a].tasks| { assert At(rows, a, b); }
    }
    forall a, b, c, d | At(r, a, b) && At(r, c, d) && r[a].tasks[b].id == r[c].tasks[d].id
      ensures a == c && b == d
    {
      if b < |rows[a].tasks| && d < |rows[c].tasks| {
        assert At(rows, a, b) && At(rows, c, d);
      } else if b >= |rows[a].tasks| && d >= |rows[c].tasks| {
        assert rows[a].name == name == rows[c].name;
      }
    }
    forall a, b, c | At(r, a, b) && At(r, a, c) && b < c ensures r[a].tasks[b].id < r[a].tasks[c].id {
      assert At(rows, a, b);
      if c < |rows[a].tasks| { assert At(rows, a, c); }
    }
  }

  /** addTask on a known project adds exactly one task to the registry. */
  lemma {:induction false} AddTaskCount(rows: seq<Project>, name: string, t: TaskRecord)
    requires DistinctNames(rows) && name in Names(rows)
    ensures |Flatten(AppendTask(rows, name, t))| == |Flatten(rows)| + 1
  {
    var n := |rows|;
    var r := AppendTask(rows, name, t);
    assert Names(rows)[..n - 1] == Names(rows[..n - 1]);
    assert AppendTask(rows, name, t)[..n - 1] == AppendTask(rows[..n - 1], name, t);
    if rows[n - 1].name == name {
      forall a | 0 <= a < n - 1 ensures rows[a].name != name { }
      assert AppendTask(rows[..n - 1], name, t) == rows[..n - 1];
    } else {
      assert name in Names(rows[..n - 1]) by {
        var a :| 0 <= a < n && Names(rows)[a] == name;
        assert Names(rows[..n - 1])[a] == name;
      }
      AddTaskCount(rows[..n - 1], name, t);
    }
  }

  lemma ChangeKeepsInvariant(rows: seq<Project>, id: int, c: Change, lastId: int)
    requires DistinctNames(rows) && WellNumbered(rows, lastId)
    ensures Names(ApplyChange(rows, id, c)) == Names(rows)
    ensures DistinctNames(ApplyChange(rows, id, c)) && WellNumbered(ApplyChange(rows, id, c), lastId)
  {
    NumberingTransfer(rows, ApplyChange(rows, id, c), lastId, lastId);
  }

  /** setDone / setDeadline on an identifier no task has changes nothing. */
  lemma ChangeMissingIsIdentity(rows: seq<Project>, id: int, c: Change)
    requires !HasTask(rows, id)
    ensures ApplyChange(rows, id, c) == rows
  {
    var r := ApplyChange(rows, id, c);
    forall a | 0 <= a < |rows| ensures r[a] == rows[a] {
      assert r[a].tasks == rows[a].tasks by {
        forall b | 0 <= b < |rows[a].tasks| ensures r[a].tasks[b] == rows[a].tasks[b] {
          assert At(rows, a, b);
        }
      }
    }
  }

  /**
   * setDone / setDeadline on a stored identifier changes that one task and
   * only the changed field of it; every other task and every name stays.
   */
  lemma ChangeTargetsOneTask(rows: seq<Project>, id: int, c: Change, lastId: int, a: int, b: int)
    requires WellNumbered(rows, lastId) && At(rows, a, b) && rows[a].tasks[b].id == id
    ensures var r := ApplyChange(rows, id, c);
      && Names(r) == Names(rows)
      && At(r, a, b) && r[a].tasks[b] == Apply(c, rows[a].tasks[b])
      && forall a', b' :: At(rows, a', b') && (a', b') != (a, b) ==> At(r, a', b') && r[a'].tasks[b'] == rows[a'].tasks[b']
  {
  }

  /**
   * A later change of the same kind to the same task overwrites an earlier
   * one: the last deadline set wins, and marking done twice is marking once.
   */
  lemma ChangeOverwrites(rows: seq<Project>, id: int, c1: Change, c2: Change)
    requires c1.MarkDone? == c2.MarkDone?
    ensures ApplyChange(ApplyChange(rows, id, c1), id, c2) == ApplyChange(rows, id, c2)
  {
    var r1, r2 := ApplyChange(ApplyChange(rows, id, c1), id, c2), ApplyChange(rows, id, c2);
    forall a | 0 <= a < |rows| ensures r1[a] == r2[a] {
      assert r1[a].tasks == r2[a].tasks;
    }
  }

  /** setDone / setDeadline neither add nor remove a task. */
  lemma {:induction false} ChangeKeepsCount(rows: seq<Project>, id: int, c: Change)
    ensures |Flatten(ApplyChange(rows, id, c))| == |Flatten(rows)|
  {
    if rows != [] {
      var n := |rows|;
      assert ApplyChange(rows, id, c)[..n - 1] == ApplyChange(rows[..n - 1], id, c);
      ChangeKeepsCount(rows[..n - 1], id, c);
    }
  }

  // ---------------------------------------------------------------------
  // Views

  /** Every task, project by project, each project's tasks in insertion order. */
  function Flatten(rows: seq<Project>): seq<TaskRecord>
  {
    if rows == [] then [] else Flatten(rows[..|rows| - 1]) + rows[|rows| - 1].tasks
  }

  /** The tasks of ts whose deadline is k, in their order in ts. */
  function Only(ts: seq<TaskRecord>, k: Option<Date>): seq<TaskRecord>
  {
    if ts == [] then []
    else Only(ts[..|ts| - 1], k) + (if ts[|ts| - 1].deadline == k then [ts[|ts| - 1]] else [])
  }

  /** A task is kept by Only exactly when it is in the list and has deadline k. */
  lemma {:induction false} OnlyMembers(ts: seq<TaskRecord>, k: Option<Date>, t: TaskRecord)
    ensures t in Only(ts, k) <==> t in ts && t.deadline == k
  {
    if ts != [] {
      assert ts == ts[..|ts| - 1] + [ts[|ts| - 1]];
      OnlyMembers(ts[..|ts| - 1], k, t);
    }
  }

  /** getTasksDueToday: the tasks whose deadline is set and equals today. */
  function DueToday(rows: seq<Project>, today: Date): seq<TaskRecord>
  {
    Only(Flatten(rows), Some(today))
  }

  /** The projects that have a task with deadline k, in registration order, each with those tasks. */
  function Bucket(rows: seq<Project>, k: Option<Date>): seq<Project>
  {
    if rows == [] then []
    else
      var last := rows[|rows| - 1];
      var f := Only(last.tasks, k);
      Bucket(rows[..|rows| - 1], k) + (if f == [] then [] else [Project(last.name, f)])
  }

  /** The tasks of the (last) project named p, or none. */
  function TasksOf(rows: seq<Project>, p: string): seq<TaskRecord>
  {
    if rows == [] then []
    else if rows[|rows| - 1].name == p then rows[|rows| - 1].tasks
    else TasksOf(rows[..|rows| - 1], p)
  }

  /** The order of the deadline view: dates ascending, "no deadline" after every date. */
  predicate KeyBefore(x: Option<Date>, y: Option<Date>)
  {
    x.Some? && (y.None? || x.value < y.value)
  }

  predicate SortedKeys(g: seq<DeadlineGroup>)
  {
    forall i, j :: 0 <= i < j < |g| ==> KeyBefore(g[i].deadline, g[j].deadline)
  }

  function Keys(g: seq<DeadlineGroup>): seq<Option<Date>>
  {
    seq(|g|, i requires 0 <= i < |g| => g[i].deadline)
  }

  /** The projects of the entry with deadline k, or none. */
  function Lookup(g: seq<DeadlineGroup>, k: Option<Date>): seq<Project>
  {
    if g == [] then [] else if g[0].deadline == k then g[0].projects else Lookup(g[1..], k)
  }

  /** The tasks the deadline view files under deadline k and project p. */
  function TasksUnder(g: seq<DeadlineGroup>, k: Option<Date>, p: string): seq<TaskRecord>
  {
    TasksOf(Lookup(g, k), p)
  }

  /**
   * g is the deadline view of rows: its entries are in KeyBefore order, none
   * is empty, and under every deadline it holds exactly the bucket of rows
   * for that deadline.
   */
  ghost predicate IsGroupedView(rows: seq<Project>, g: seq<DeadlineGroup>)
  {
    && SortedKeys(g)
    && (forall i :: 0 <= i < |g| ==> g[i].projects != [])
    && (forall k :: Lookup(g, k) == Bucket(rows, k))
  }

  /**
   * Filing one task under project p in an entry's project list: the task is
   * appended to p's list, which is created at the end if p has none yet.
   */
  function AddToProject(ps: seq<Project>, p: string, t: TaskRecord): (r: seq<Project>)
    ensures r != []
  {
    if ps == [] then [Project(p, [t])]
    else if ps[0].name == p then [Project(p, ps[0].tasks + [t])] + ps[1..]
    else [ps[0]] + AddToProject(ps[1..], p, t)
  }

  /**
   * Filing one task under deadline k and project p in the sorted view g: the
   * entry for k is created at its place in the order if it is missing.
   */
  function PutIn(g: seq<DeadlineGroup>, k: Option<Date>, p: string, t: TaskRecord): (r: seq<DeadlineGroup>)
    requires SortedKeys(g)
    ensures SortedKeys(r)
    ensures r != [] && (r[0].deadline == k || (g != [] && r[0].deadline == g[0].deadline))
  {
    if g == [] then [DeadlineGroup(k, [Project(p, [t])])]
    else if g[0].deadline == k then [g[0].(projects := AddToProject(g[0].projects, p, t))] + g[1..]
    else if KeyBefore(k, g[0].deadline) then
      LookupBeforeFirst(g, k);
      [DeadlineGroup(k, [Project(p, [t])])] + g
    else
      [g[0]] + PutIn(g[1..], k, p, t)
  }

  /** PutIn files t under k and p and leaves every other deadline's entry as it was. */
  lemma {:induction false} PutInLookup(g: seq<DeadlineGroup>, k: Option<Date>, p: string, t: TaskRecord)
    requires SortedKeys(g)
    ensures forall key :: Lookup(PutIn(g, k, p, t), key) == if key == k then AddToProject(Lookup(g, k), p, t) else Lookup(g, key)
  {
    if g != [] && g[0].deadline != k {
      if KeyBefore(k, g[0].deadline) {
        LookupBeforeFirst(g, k);
      } else {
        PutInLookup(g[1..], k, p, t);
      }
    }
  }

  /** PutIn creates no empty entry. */
  lemma {:induction false} PutInNonEmpty(g: seq<DeadlineGroup>, k: Option<Date>, p: string, t: TaskRecord)
    requires SortedKeys(g) && forall i :: 0 <= i < |g| ==> g[i].projects != []
    ensures forall i :: 0 <= i < |PutIn(g, k, p, t)| ==> PutIn(g, k, p, t)[i].projects != []
  {
    if g != [] && g[0].deadline != k && !KeyBefore(k, g[0].deadline) {
      PutInNonEmpty(g[1..], k, p, t);
    }
  }

  lemma {:induction false} LookupBeforeFirst(g: seq<DeadlineGroup>, k: Option<Date>)
    requires SortedKeys(g) && g != [] && KeyBefore(k, g[0].deadline)
    ensures Lookup(g, k) == []
  {
    if |g| > 1 {
      LookupBeforeFirst(g[1..], k);
    }
  }

  // ---------------------------------------------------------------------
  // Lemmas about the views

  lemma {:induction false} OnlyConcat(xs: seq<TaskRecord>, ys: seq<TaskRecord>, k: Option<Date>)
    ensures Only(xs + ys, k) == Only(xs, k) + Only(ys, k)
  {
    if ys != [] {
      var n := |ys|;
      var zs := xs + ys;
      var last := if ys[n - 1].deadline == k then [ys[n - 1]] else [];
      assert zs[..|zs| - 1] == xs + ys[..n - 1] && zs[|zs| - 1] == ys[n - 1];
      assert Only(zs, k) == Only(xs + ys[..n - 1], k) + last;
      OnlyConcat(xs, ys[..n - 1], k);
      assert Only(ys, k) == Only(ys[..n - 1], k) + last;
    } else {
      assert xs + ys == xs;
    }
  }

  /** One more task of ts examined by a filtering scan. */
  lemma OnlyTakeStep(ts: seq<TaskRecord>, j: int, k: Option<Date>)
    requires 0 <= j < |ts|
    ensures Only(ts[..j + 1], k) == Only(ts[..j], k) + (if ts[j].deadline == k then [ts[j]] else [])
  {
    assert ts[..j + 1][..j] == ts[..j];
  }

  /** One more project examined by the due-today scan. */
  lemma DueTodayStep(rows: seq<Project>, i: int, today: Date)
    requires 0 <= i < |rows|
    ensures Only(Flatten(rows[..i + 1]), Some(today))
         == Only(Flatten(rows[..i]), Some(today)) + Only(rows[i].tasks[..|rows[i].tasks|], Some(today))
  {
    TakeSnoc(rows, i);
    FlattenSnoc(rows[..i], rows[i]);
    OnlyConcat(Flatten(rows[..i]), rows[i].tasks, Some(today));
    TakeAll(rows[i].tasks);
  }

  lemma FlattenSnoc(rows: seq<Project>, x: Project)
    ensures Flatten(rows + [x]) == Flatten(rows) + x.tasks
  {
    assert (rows + [x])[..|rows|] == rows;
  }

  lemma {:induction false} FlattenMembership(rows: seq<Project>, t: TaskRecord)
    ensures t in Flatten(rows) <==> exists a, b :: At(rows, a, b) && rows[a].tasks[b] == t
  {
    if rows != [] {
      var n := |rows|;
      var init := rows[..n - 1];
      FlattenMembership(init, t);
      if t in Flatten(rows) {
        if t in Flatten(init) {
          var a, b :| At(init, a, b) && init[a].tasks[b] == t;
          assert At(rows, a, b) && rows[a].tasks[b] == t;
        } else {
          var b :| 0 <= b < |rows[n - 1].tasks| && rows[n - 1].tasks[b] == t;
          assert At(rows, n - 1, b);
        }
      }
      if exists a, b :: At(rows, a, b) && rows[a].tasks[b] == t {
        var a, b :| At(rows, a, b) && rows[a].tasks[b] == t;
        if a < n - 1 {
          assert At(init, a, b) && init[a].tasks[b] == t;
        } else {
          assert t in rows[n - 1].tasks;
        }
      }
    }
  }

  /**
   * getTasksDueToday returns exactly the stored tasks whose deadline is set
   * and equal to today; a task without a deadline is never among them.
   */
  lemma DueTodayExact(rows: seq<Project>, today: Date, t: TaskRecord)
    ensures t in DueToday(rows, today) <==>
      (exists a, b :: At(rows, a, b) && rows[a].tasks[b] == t) && t.deadline == Some(today)
  {
    FlattenMembership(rows, t);
    OnlyMembers(Flatten(rows), Some(today), t);
  }

  lemma {:induction false} FlattenBucket(rows: seq<Project>, k: Option<Date>)
    ensures Flatten(Bucket(rows, k)) == Only(Flatten(rows), k)
  {
    if rows != [] {
      var n := |rows|;
      var init, last := rows[..n - 1], rows[n - 1];
      FlattenBucket(init, k);
      OnlyConcat(Flatten(init), last.tasks, k);
      var f := Only(last.tasks, k);
      if f != [] {
        FlattenSnoc(Bucket(init, k), Project(last.name, f));
      } else {
        assert Bucket(rows, k) == Bucket(init, k);
      }
    }
  }

  /** The deadline view's entry for today holds exactly what getTasksDueToday returns, in the same order. */
  lemma GroupedTodayIsDueToday(rows: seq<Project>, g: seq<DeadlineGroup>, today: Date)
    requires IsGroupedView(rows, g)
    ensures Flatten(Lookup(g, Some(today))) == DueToday(rows, today)
  {
    FlattenBucket(rows, Some(today));
  }

  lemma {:induction false} BucketNonEmpty(rows: seq<Project>, k: Option<Date>)
    ensures Bucket(rows, k) != [] <==> Only(Flatten(rows), k) != []
  {
    if rows != [] {
      var n := |rows|;
      BucketNonEmpty(rows[..n - 1], k);
      OnlyConcat(Flatten(rows[..n - 1]), rows[n - 1].tasks, k);
    }
  }

  lemma {:induction false} LookupNonEmpty(g: seq<DeadlineGroup>, k: Option<Date>)
    requires forall i :: 0 <= i < |g| ==> g[i].projects != []
    ensures Lookup(g, k) != [] <==> k in Keys(g)
  {
    if g != [] {
      assert Keys(g) == [g[0].deadline] + Keys(g[1..]);
      LookupNonEmpty(g[1..], k);
    }
  }

  /** The distinct deadline values of all tasks, "no deadline" (None) counted once. */
  ghost function Deadlines(rows: seq<Project>): set<Option<Date>>
  {
    set t | t in Flatten(rows) :: t.deadline
  }

  lemma {:induction false} DistinctCard<T>(s: seq<T>)
    requires forall i, j :: 0 <= i < j < |s| ==> s[i] != s[j]
    ensures |set x | x in s| == |s|
  {
    if s != [] {
      DistinctCard(s[1..]);
      assert (set x | x in s) == {s[0]} + (set x | x in s[1..]);
      assert s[0] !in (set x | x in s[1..]);
    }
  }

  /**
   * The deadline view has one entry per distinct deadline value of the
   * registry (the tasks without a deadline share one entry), and no other.
   */
  lemma GroupedKeysAreDeadlines(rows: seq<Project>, g: seq<DeadlineGroup>)
    requires IsGroupedView(rows, g)
    ensures forall k :: k in Keys(g) <==> k in Deadlines(rows)
    ensures |g| == |Deadlines(rows)|
  {
    forall k ensures k in Keys(g) <==> k in Deadlines(rows) {
      LookupNonEmpty(g, k);
      BucketNonEmpty(rows, k);
      var f := Only(Flatten(rows), k);
      if f != [] {
        OnlyMembers(Flatten(rows), k, f[0]);
      }
      if k in Deadlines(rows) {
        var t :| t in Flatten(rows) && t.deadline == k;
        OnlyMembers(Flatten(rows), k, t);
      }
    }
    DistinctCard(Keys(g));
    assert (set x | x in Keys(g)) == Deadlines(rows);
  }

  // Filing one more task into the deadline view

  lemma {:induction false} AddToProjectSkip(xs: seq<Project>, ys: seq<Project>, p: string, t: TaskRecord)
    requires forall i :: 0 <= i < |xs| ==> xs[i].name != p
    ensures AddToProject(xs + ys, p, t) == xs + AddToProject(ys, p, t)
  {
    if xs != [] {
      assert (xs + ys)[1..] == xs[1..] + ys;
      AddToProjectSkip(xs[1..], ys, p, t);
    } else {
      assert xs + ys == ys;
    }
  }

  lemma {:induction false} BucketNames(rows: seq<Project>, k: Option<Date>, p: string)
    requires forall a :: 0 <= a < |rows| ==> rows[a].name != p
    ensures forall i :: 0 <= i < |Bucket(rows, k)| ==> Bucket(rows, k)[i].name != p
  {
    if rows != [] {
      BucketNames(rows[..|rows| - 1], k, p);
    }
  }

  lemma BucketStep(rows: seq<Project>, p: string, ts: seq<TaskRecord>, t: TaskRecord, k: Option<Date>)
    requires forall a :: 0 <= a < |rows| ==> rows[a].name != p
    ensures Bucket(rows + [Project(p, ts + [t])], k)
         == if k == t.deadline then AddToProject(Bucket(rows + [Project(p, ts)], k), p, t)
            else Bucket(rows + [Project(p, ts)], k)
  {
    var r1, r0 := rows + [Project(p, ts + [t])], rows + [Project(p, ts)];
    assert r1[..|r1| - 1] == rows && r0[..|r0| - 1] == rows;
    assert (ts + [t])[..|ts|] == ts;
    var f := Only(ts, k);
    if k == t.deadline {
      BucketNames(rows, k, p);
      var b := Bucket(rows, k);
      assert Only(ts + [t], k) == f + [t];
      assert Bucket(r1, k) == b + [Project(p, f + [t])];
      if f == [] {
        assert Bucket(r0, k) == b + [];
        AddToProjectSkip(b, [], p, t);
        assert f + [t] == [t];
      } else {
        assert Bucket(r0, k) == b + [Project(p, f)];
        AddToProjectSkip(b, [Project(p, f)], p, t);
        assert AddToProject([Project(p, f)], p, t) == [Project(p, f + [t])];
      }
    } else {
      assert Only(ts + [t], k) == f + [];
      assert f + [] == f;
      assert Bucket(r1, k) == Bucket(rows, k) + (if f == [] then [] else [Project(p, f)]) == Bucket(r0, k);
    }
  }

  /** An empty project adds nothing to the deadline view. */
  lemma GroupedEmptyProject(rows: seq<Project>, p: string, g: seq<DeadlineGroup>)
    requires IsGroupedView(rows, g)
    ensures IsGroupedView(rows + [Project(p, [])], g)
  {
    forall k ensures Bucket(rows + [Project(p, [])], k) == Bucket(rows, k) {
      assert (rows + [Project(p, [])])[..|rows|] == rows;
    }
  }

  /**
   * Filing the next task of the last project with PutIn turns the view of
   * the registry before it into the view of the registry after it.
   */
  lemma GroupedStep(rows: seq<Project>, p: string, ts: seq<TaskRecord>, t: TaskRecord, g: seq<DeadlineGroup>)
    requires forall a :: 0 <= a < |rows| ==> rows[a].name != p
    requires IsGroupedView(rows + [Project(p, ts)], g)
    ensures IsGroupedView(rows + [Project(p, ts + [t])], PutIn(g, t.deadline, p, t))
  {
    PutInLookup(g, t.deadline, p, t);
    PutInNonEmpty(g, t.deadline, p, t);
    forall k ensures Lookup(PutIn(g, t.deadline, p, t), k) == Bucket(rows + [Project(p, ts + [t])], k) {
      BucketStep(rows, p, ts, t, k);
    }
  }

  // Each task is filed in exactly one (deadline, project) bucket

  lemma {:induction false} TasksOfAbsent(rows: seq<Project>, p: string)
    requires forall a :: 0 <= a < |rows| ==> rows[a].name != p
    ensures TasksOf(rows, p) == []
  {
    if rows != [] {
      TasksOfAbsent(rows[..|rows| - 1], p);
    }
  }

  lemma {:induction false} TasksOfAt(rows: seq<Project>, c: int)
    requires DistinctNames(rows) && 0 <= c < |rows|
    ensures TasksOf(rows, rows[c].name) == rows[c].tasks
  {
    if c < |rows| - 1 {
      TasksOfAt(rows[..|rows| - 1], c);
    }
  }

  lemma {:induction false} TasksOfFound(rows: seq<Project>, p: string)
    ensures TasksOf(rows, p) == [] || exists c :: 0 <= c < |rows| && rows[c].name == p && TasksOf(rows, p) == rows[c].tasks
  {
    if rows != [] && rows[|rows| - 1].name != p {
      TasksOfFound(rows[..|rows| - 1], p);
    }
  }

  lemma {:induction false} BucketTasksOf(rows: seq<Project>, k: Option<Date>, p: string)
    requires DistinctNames(rows)
    ensures TasksOf(Bucket(rows, k), p) == Only(TasksOf(rows, p), k)
  {
    if rows != [] {
      var n := |rows|;
      var init, last := rows[..n - 1], rows[n - 1];
      BucketTasksOf(init, k, p);
      var f := Only(last.tasks, k);
      var b := Bucket(init, k);
      if f != [] {
        assert (b + [Project(last.name, f)])[..|b|] == b;
      } else {
        assert Bucket(rows, k) == b;
        if last.name == p {
          TasksOfAbsent(init, p);
        }
      }
    }
  }

  /**
   * Under every deadline k and project p, the deadline view files exactly
   * p's tasks whose deadline is k, in p's insertion order.
   */
  lemma GroupedBucketIsFilter(rows: seq<Project>, g: seq<DeadlineGroup>, k: Option<Date>, p: string)
    requires IsGroupedView(rows, g) && DistinctNames(rows)
    ensures TasksUnder(g, k, p) == Only(TasksOf(rows, p), k)
  {
    BucketTasksOf(rows, k, p);
  }

  /**
   * Every stored task is in exactly one bucket of the deadline view: the one
   * for its own deadline and its own project.
   */
  lemma GroupedPartition(rows: seq<Project>, g: seq<DeadlineGroup>, lastId: int, a: int, b: int)
    requires IsGroupedView(rows, g) && DistinctNames(rows) && WellNumbered(rows, lastId) && At(rows, a, b)
    ensures forall k, p :: rows[a].tasks[b] in TasksUnder(g, k, p) <==> k == rows[a].tasks[b].deadline && p == rows[a].name
  {
    var t := rows[a].tasks[b];
    forall k, p ensures t in TasksUnder(g, k, p) <==> k == t.deadline && p == rows[a].name {
      GroupedBucketIsFilter(rows, g, k, p);
      OnlyMembers(TasksOf(rows, p), k, t);
      if p == rows[a].name {
        TasksOfAt(rows, a);
      } else {
        TasksOfFound(rows, p);
        if t in TasksOf(rows, p) {
          var c :| 0 <= c < |rows| && rows[c].name == p && TasksOf(rows, p) == rows[c].tasks;
          var d :| 0 <= d < |rows[c].tasks| && rows[c].tasks[d] == t;
          assert At(rows, a, b) && At(rows, c, d);
        }
      }
    }
  }

  // ---------------------------------------------------------------------
  // The two scans the views perform

  /** The scan behind getTasksDueToday: every project in order, every task in order. */
  method ScanDueToday(rows: seq<Project>, today: Date) returns (r: seq<TaskRecord>)
    ensures r == DueToday(rows, today)
  {
    r := [];
    var i := 0;
    while i < |rows|
      invariant 0 <= i <= |rows|
      invariant r == Only(Flatten(rows[..i]), Some(today))
    {
      var tasks := rows[i].tasks;
      ghost var before := r;
      var j := 0;
      while j < |tasks|
        invariant 0 <= j <= |tasks|
        invariant r == before + Only(tasks[..j], Some(today))
      {
        OnlyTakeStep(tasks, j, Some(today));
        if tasks[j].deadline == Some(today) {
          r := r + [tasks[j]];
        }
        j := j + 1;
      }
      DueTodayStep(rows, i, today);
      i := i + 1;
    }
    TakeAll(rows);
  }

  /**
   * The scan behind getTasksGroupedByDeadline: each task is put under its
   * deadline's group (created in key order when missing) and, inside it,
   * under its project (appended when missing).
   */
  method GroupByDeadline(rows: seq<Project>) returns (g: seq<DeadlineGroup>)
    requires DistinctNames(rows)
    ensures IsGroupedView(rows, g)
  {
    g := [];
    var i := 0;
    while i < |rows|
      invariant 0 <= i <= |rows|
      invariant IsGroupedView(rows[..i], g)
    {
      var name := rows[i].name;
      var tasks := rows[i].tasks;
      GroupedEmptyProject(rows[..i], name, g);
      assert tasks[..0] == [];
      var j := 0;
      while j < |tasks|
        invariant 0 <= j <= |tasks|
        invariant IsGroupedView(rows[..i] + [Project(name, tasks[..j])], g)
      {
        var t := tasks[j];
        GroupedStep(rows[..i], name, tasks[..j], t, g);
        TakeSnoc(tasks, j);
        g := PutIn(g, t.deadline, name, t);
        j := j + 1;
      }
      TakeAll(tasks);
      TakeSnoc(rows, i);
      i := i + 1;
    }
    TakeAll(rows);
  }

  // ---------------------------------------------------------------------
  // Sequence steps the scans take

  lemma TakeSnoc<T>(s: seq<T>, n: int)
    requires 0 <= n < |s|
    ensures s[..n + 1] == s[..n] + [s[n]]
  {
  }

  lemma TakeAll<T>(s: seq<T>)
    ensures s[..|s|] == s
  {
  }
}
