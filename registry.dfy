/** The in-memory task registry: a master list of tasks in insertion order, each
    employee's own copies of the tasks assigned to them, and a max-priority queue
    of copies of the added tasks.

    Tasks are values, so every copy the registry keeps or hands out is independent
    of the others: changing one never changes another. */
module Registry {
  import opened Tasks
  import opened Ordering

  datatype Option<T> = None | Some(value: T)

  /** The master list with every task named `name` taken out, the rest in order. */
  function Without(s: seq<Task>, name: string): (r: seq<Task>)
    ensures |r| <= |s|
    decreases |s|
  {
    if s == [] then []
    else (if s[0].name == name then [] else [s[0]]) + Without(s[1..], name)
  }

  /** Filtering distributes over concatenation: the kept tasks keep their order. */
  lemma {:induction false} WithoutAppend(s: seq<Task>, u: seq<Task>, name: string)
    ensures Without(s + u, name) == Without(s, name) + Without(u, name)
    decreases |s|
  {
    if s == [] {
      assert s + u == u;
    } else {
      assert (s + u)[0] == s[0] && (s + u)[1..] == s[1..] + u;
      WithoutAppend(s[1..], u, name);
    }
  }

  /** Exactly the tasks not named `name` are kept, each as often as it occurred. */
  lemma {:induction false} WithoutCounts(s: seq<Task>, name: string, t: Task)
    ensures multiset(Without(s, name))[t] == if t.name == name then 0 else multiset(s)[t]
    decreases |s|
  {
    if s != [] {
      WithoutCounts(s[1..], name, t);
      assert s == [s[0]] + s[1..];
    }
  }

  /** Removing is a no-op exactly when no task has the name. */
  lemma WithoutNoMatch(s: seq<Task>, name: string)
    ensures Without(s, name) == s <==> forall k :: 0 <= k < |s| ==> s[k].name != name
  {
    if forall k :: 0 <= k < |s| ==> s[k].name != name {
      WithoutKeepsAll(s, name);
    } else {
      var k :| 0 <= k < |s| && s[k].name == name;
      WithoutCounts(s, name, s[k]);
      assert s[k] in multiset(s);
    }
  }

  lemma {:induction false} WithoutKeepsAll(s: seq<Task>, name: string)
    requires forall k :: 0 <= k < |s| ==> s[k].name != name
    ensures Without(s, name) == s
    decreases |s|
  {
    if s != [] {
      WithoutKeepsAll(s[1..], name);
      assert s == [s[0]] + s[1..];
    }
  }

  /** Removing twice by the same name is the same as removing once. */
  lemma WithoutIdempotent(s: seq<Task>, name: string)
    ensures Without(Without(s, name), name) == Without(s, name)
  {
    var r := Without(s, name);
    forall k | 0 <= k < |r| ensures r[k].name != name {
      WithoutCounts(s, name, r[k]);
      assert r[k] in multiset(r);
    }
    WithoutNoMatch(r, name);
  }

  /** Adding a task and then removing it by name gives back the list from before the
      add, when no earlier task had that name. */
  lemma AddThenRemove(s: seq<Task>, t: Task)
    requires forall k :: 0 <= k < |s| ==> s[k].name != t.name
    ensures Without(s + [t], t.name) == s
  {
    WithoutAppend(s, [t], t.name);
    WithoutNoMatch(s, t.name);
    assert Without([t], t.name) == [];
  }

  /** The position of the first task named `name`, if any. */
  function FirstNamed(s: seq<Task>, name: string): (r: Option<nat>)
    ensures r.Some? ==> r.value < |s| && s[r.value].name == name
    ensures r.Some? ==> forall k :: 0 <= k < r.value ==> s[k].name != name
    ensures r.None? <==> forall k :: 0 <= k < |s| ==> s[k].name != name
    decreases |s|
  {
    if s == [] then None
    else if s[0].name == name then Some(0)
    else match FirstNamed(s[1..], name)
      case None => None
      case Some(i) => Some(i + 1)
  }

  /** The master list with its first task named `name` replaced, whole, by `t`. */
  function ReplaceFirst(s: seq<Task>, name: string, t: Task): (r: seq<Task>)
    ensures |r| == |s|
    ensures (forall k :: 0 <= k < |s| ==> s[k].name != name) ==> r == s
    ensures forall i :: 0 <= i < |s| && s[i].name == name && (forall k :: 0 <= k < i ==> s[k].name != name) ==>
              r[i] == t && (forall k :: 0 <= k < |s| && k != i ==> r[k] == s[k])
  {
    match FirstNamed(s, name)
    case None => s
    case Some(i) => s[i := t]
  }

  /** The entry the assignment index has for `employeeID`, empty if there is none. */
  function AssignedTo(index: map<string, seq<Task>>, employeeID: string): seq<Task> {
    if employeeID in index then index[employeeID] else []
  }

  /** `t` has a priority at least that of every task in `q`. */
  predicate AtLeastAll(t: Task, q: multiset<Task>) {
    forall u :: u in q ==> u.priority <= t.priority
  }

  /** A non-empty queue holds a task of highest priority. */
  lemma {:induction false} HighestExists(q: multiset<Task>)
    requires q != multiset{}
    ensures exists t :: t in q && AtLeastAll(t, q)
    decreases |q|
  {
    var x :| x in q;
    var rest := q - multiset{x};
    if rest == multiset{} {
      assert q == multiset{x};
    } else {
      HighestExists(rest);
      var m :| m in rest && AtLeastAll(m, rest);
      var top := if m.priority < x.priority then x else m;
      forall u | u in q ensures u.priority <= top.priority {
        if u != x { assert u in rest; }
      }
      assert top in q && AtLeastAll(top, q);
    }
  }

  /** The top of the priority queue: a task of highest priority. Which of several
      tasks of equal priority comes out is not determined. */
  method PickHighest(q: multiset<Task>) returns (t: Task)
    requires q != multiset{}
    ensures t in q
    ensures forall u :: u in q ==> u.priority <= t.priority
    ensures forall u :: u in q ==> !QueueBelow(t, u)
  {
    HighestExists(q);
    t :| t in q && AtLeastAll(t, q);
  }

  class TaskList {
    /** The master list, in insertion order. */
    var tasks: seq<Task>
    /** Employee ID to that employee's own copies of their tasks. */
    var employeeTasks: map<string, seq<Task>>
    /** The priority queue, as the multiset of tasks it holds. */
    var taskQueue: multiset<Task>

    constructor ()
      ensures tasks == [] && employeeTasks == map[] && taskQueue == multiset{}
    {
      tasks := [];
      employeeTasks := map[];
      taskQueue := multiset{};
    }

    /** Appends the task to the master list and pushes a copy onto the queue. */
    method AddTask(task: Task)
      modifies this
      ensures tasks == old(tasks) + [task]
      ensures taskQueue == old(taskQueue) + multiset{task}
      ensures employeeTasks == old(employeeTasks)
    {
      tasks := tasks + [task];
      taskQueue := taskQueue + multiset{task};
    }

    /** Appends a copy of the task to the employee's list, which starts empty when
        the employee has none yet; nothing else changes. */
    method AssignTaskToEmployee(employeeID: string, task: Task)
      modifies this
      ensures employeeTasks == old(employeeTasks)[employeeID := AssignedTo(old(employeeTasks), employeeID) + [task]]
      ensures tasks == old(tasks) && taskQueue == old(taskQueue)
    {
      employeeTasks := employeeTasks[employeeID := AssignedTo(employeeTasks, employeeID) + [task]];
    }

    /** Takes every task with the given name out of the master list, keeping the
        others in order; employee lists and the queue are not touched. */
    method RemoveTask(taskName: string)
      modifies this
      ensures tasks == Without(old(tasks), taskName)
      ensures employeeTasks == old(employeeTasks) && taskQueue == old(taskQueue)
    {
      var kept: seq<Task> := [];
      var i := 0;
      while i < |tasks|
        invariant 0 <= i <= |tasks|
        invariant kept == Without(tasks[..i], taskName)
        invariant tasks == old(tasks) && employeeTasks == old(employeeTasks) && taskQueue == old(taskQueue)
      {
        assert tasks[..i + 1] == tasks[..i] + [tasks[i]];
        WithoutAppend(tasks[..i], [tasks[i]], taskName);
        if tasks[i].name != taskName {
          kept := kept + [tasks[i]];
        }
        i := i + 1;
      }
      assert tasks[..i] == tasks;
      tasks := kept;
    }

    /** Replaces the first task with the given name by `newTask`, all fields at
        once; nothing else changes, and nothing at all when no task has the name. */
    method UpdateTask(taskName: string, newTask: Task)
      modifies this
      ensures tasks == ReplaceFirst(old(tasks), taskName, newTask)
      ensures employeeTasks == old(employeeTasks) && taskQueue == old(taskQueue)
    {
      var i := 0;
      while i < |tasks| && tasks[i].name != taskName
        invariant 0 <= i <= |tasks|
        invariant forall k :: 0 <= k < i ==> tasks[k].name != taskName
      {
        i := i + 1;
      }
      if i < |tasks| {
        tasks := tasks[i := newTask];
      }
    }

    /** The master list as it is stored. */
    method DisplayTasks() returns (shown: seq<Task>)
      ensures shown == tasks
    {
      shown := tasks;
    }

    /** Drains the priority queue, highest priority first. When the master list is
        empty nothing is drained, whatever the queue holds. */
    method DisplayHighestPriorityTasks() returns (shown: seq<Task>)
      modifies this
      ensures tasks == old(tasks) && employeeTasks == old(employeeTasks)
      ensures old(tasks) == [] ==> shown == [] && taskQueue == old(taskQueue)
      ensures old(tasks) != [] ==> taskQueue == multiset{}
      ensures old(tasks) != [] ==> multiset(shown) == old(taskQueue) && Sorted(shown, HigherPriority)
    {
      shown := [];
      if tasks == [] {
        return;
      }
      while taskQueue != multiset{}
        invariant tasks == old(tasks) && employeeTasks == old(employeeTasks)
        invariant multiset(shown) + taskQueue == old(taskQueue)
        invariant Sorted(shown, HigherPriority)
        invariant forall i :: 0 <= i < |shown| ==> AtLeastAll(shown[i], taskQueue)
        decreases |taskQueue|
      {
        var top := PickHighest(taskQueue);
        SortedAppend(shown, top, HigherPriority);
        taskQueue := taskQueue - multiset{top};
        shown := shown + [top];
      }
    }

    /** A copy of the master list sorted by due date, earliest first; the registry
        is not changed. */
    method GetTasksByDueDate() returns (byDate: seq<Task>)
      ensures multiset(byDate) == multiset(tasks)
      ensures Sorted(byDate, DueDateBefore)
    {
      byDate := SortBy(tasks, DueDateBefore);
      DueDateBeforeIsStrictWeakOrder();
      SortByIsSorted(tasks, DueDateBefore);
    }

    /** For a known employee, sorts that employee's stored list by priority, highest
        first, in place, and returns it; for an unknown one returns nothing and adds
        no entry. */
    method GetTasksForEmployee(employeeID: string) returns (employeeList: seq<Task>)
      modifies this
      ensures tasks == old(tasks) && taskQueue == old(taskQueue)
      ensures employeeID !in old(employeeTasks) ==> employeeList == [] && employeeTasks == old(employeeTasks)
      ensures employeeID in old(employeeTasks) ==>
        && employeeTasks == old(employeeTasks)[employeeID := employeeList]
        && multiset(employeeList) == multiset(old(employeeTasks)[employeeID])
        && Sorted(employeeList, HigherPriority)
    {
      if employeeID in employeeTasks {
        var list := employeeTasks[employeeID];
        employeeList := SortBy(list, HigherPriority);
        HigherPriorityIsStrictWeakOrder();
        SortByIsSorted(list, HigherPriority);
        employeeTasks := employeeTasks[employeeID := employeeList];
      } else {
        employeeList := [];
      }
    }
  }

  /** Two queries for the same employee with no change in between: the second sorts
      what the first stored, so both return the same tasks, and at every position
      tasks of the same priority. */
  lemma RepeatedEmployeeQuery(stored: seq<Task>, first: seq<Task>, second: seq<Task>)
    requires multiset(first) == multiset(stored) && Sorted(first, HigherPriority)
    requires multiset(second) == multiset(first) && Sorted(second, HigherPriority)
    ensures multiset(second) == multiset(stored)
    ensures |first| == |second|
    ensures forall i :: 0 <= i < |first| ==> first[i].priority == second[i].priority
  {
    HigherPriorityIsStrictWeakOrder();
    SortedPermutationsAgree(first, second, HigherPriority);
    assert forall i :: 0 <= i < |first| ==> Tied(first[i], second[i], HigherPriority);
  }
}
