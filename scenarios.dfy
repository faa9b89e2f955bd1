/** The registry run on the three sample tasks the program starts with: what each
    query returns for them, whatever order the library sort leaves ties in. */
module Scenarios {
  import opened Tasks
  import opened Ordering
  import opened Registry

  function Sample1(): Task { NewTask("Task 1", "Description for Task 1", "2023-11-01", 3) }
  function Sample2(): Task { NewTask("Task 2", "Description for Task 2", "2023-11-05", 2) }
  function Sample3(): Task { NewTask("Task 3", "Description for Task 3", "2023-11-03", 1) }

  /** Three tasks whose due dates strictly increase can only be sorted by due
      date in that order. */
  lemma ThreeByDueDate(r: seq<Task>, a: Task, b: Task, c: Task)
    requires LexLess(a.dueDate, b.dueDate) && LexLess(b.dueDate, c.dueDate)
    requires multiset(r) == multiset{a, b, c} && Sorted(r, DueDateBefore)
    ensures r == [a, b, c]
  {
    var e := [a, b, c];
    DueDateBeforeIsStrictWeakOrder();
    LexLessTransitive(a.dueDate, b.dueDate, c.dueDate);
    LexLessIrreflexive(a.dueDate);
    LexLessIrreflexive(b.dueDate);
    LexLessIrreflexive(c.dueDate);
    assert Sorted(e, DueDateBefore);
    forall x, y | x in e && y in e && Tied(x, y, DueDateBefore) ensures x == y {
      DueDateTiedIffEqual(x, y);
    }
    assert multiset(e) == multiset{a, b, c};
    UniqueSortedArrangement(r, e, DueDateBefore);
  }

  /** Three tasks whose priorities strictly decrease can only be sorted highest
      priority first in that order. */
  lemma ThreeByPriority(r: seq<Task>, a: Task, b: Task, c: Task)
    requires a.priority > b.priority > c.priority
    requires multiset(r) == multiset{a, b, c} && Sorted(r, HigherPriority)
    ensures r == [a, b, c]
  {
    var e := [a, b, c];
    HigherPriorityIsStrictWeakOrder();
    assert multiset(e) == multiset{a, b, c};
    UniqueSortedArrangement(r, e, HigherPriority);
  }

  /** Two strings that share everything but a last character are ordered by it. */
  lemma LastCharDecides(p: string, x: char, y: char)
    requires x < y
    ensures LexLess(p + [x], p + [y])
  {
    assert (p + [x])[..|p|] == p == (p + [y])[..|p|];
    LexLessAt(p + [x], p + [y], |p|);
  }

  /** The start-up due dates agree up to the last digit, which increases. */
  lemma SampleDatesIncrease()
    ensures LexLess(Sample1().dueDate, Sample3().dueDate)
    ensures LexLess(Sample3().dueDate, Sample2().dueDate)
  {
    var day := "2023-11-0";
    assert Sample1().dueDate == day + ['1'];
    assert Sample3().dueDate == day + ['3'];
    assert Sample2().dueDate == day + ['5'];
    LastCharDecides(day, '1', '3');
    LastCharDecides(day, '3', '5');
  }

  /** The start-up registry (the three samples added in order) listed by due date. */
  method SampleDueDateQuery() returns (byDate: seq<Task>)
    ensures byDate == [Sample1(), Sample3(), Sample2()]
  {
    var registry := new TaskList();
    registry.AddTask(Sample1());
    registry.AddTask(Sample2());
    registry.AddTask(Sample3());
    byDate := registry.GetTasksByDueDate();
    assert multiset(byDate) == multiset{Sample1(), Sample3(), Sample2()};
    SampleDatesIncrease();
    ThreeByDueDate(byDate, Sample1(), Sample3(), Sample2());
  }

  /** Tasks assigned with priorities 2, 1, 3 come back as 3, 2, 1, and a second
      query returns the same list. */
  method SampleEmployeeQuery() returns (first: seq<Task>, second: seq<Task>)
    ensures first == [Sample1(), Sample2(), Sample3()]
    ensures second == first
  {
    var registry := new TaskList();
    registry.AssignTaskToEmployee("Employee 1", Sample2());
    registry.AssignTaskToEmployee("Employee 1", Sample3());
    registry.AssignTaskToEmployee("Employee 1", Sample1());
    first := registry.GetTasksForEmployee("Employee 1");
    assert multiset(first) == multiset{Sample1(), Sample2(), Sample3()};
    ThreeByPriority(first, Sample1(), Sample2(), Sample3());
    second := registry.GetTasksForEmployee("Employee 1");
    ThreeByPriority(second, Sample1(), Sample2(), Sample3());
  }

  /** The first display of the priority queue shows the samples highest priority
      first; the queue is then empty, so a second display shows nothing although
      the master list still holds all three. */
  method SampleDrainTwice() returns (first: seq<Task>, second: seq<Task>, listed: seq<Task>)
    ensures first == [Sample1(), Sample2(), Sample3()]
    ensures second == []
    ensures listed == [Sample1(), Sample2(), Sample3()]
  {
    var registry := new TaskList();
    registry.AddTask(Sample1());
    registry.AddTask(Sample2());
    registry.AddTask(Sample3());
    first := registry.DisplayHighestPriorityTasks();
    assert multiset(first) == multiset{Sample1(), Sample2(), Sample3()};
    ThreeByPriority(first, Sample1(), Sample2(), Sample3());
    second := registry.DisplayHighestPriorityTasks();
    listed := registry.DisplayTasks();
  }

  /** Adding a task under a new name and removing it again restores the master list. */
  method SampleAddThenRemove() returns (before: seq<Task>, after: seq<Task>)
    ensures after == before
  {
    var registry := new TaskList();
    registry.AddTask(Sample1());
    registry.AddTask(Sample2());
    before := registry.DisplayTasks();
    registry.AddTask(Sample3());
    registry.RemoveTask("Task 3");
    AddThenRemove(before, Sample3());
    after := registry.DisplayTasks();
  }

  /** Removing a task from the master list leaves its copy in the priority queue,
      so the next display of the queue still shows it. */
  method SampleRemoveThenDrain() returns (listed: seq<Task>, shown: seq<Task>)
    ensures listed == [Sample1(), Sample2()]
    ensures Sample3() in shown && Sample3() !in listed
  {
    var registry := new TaskList();
    registry.AddTask(Sample1());
    registry.AddTask(Sample2());
    registry.AddTask(Sample3());
    registry.RemoveTask("Task 3");
    listed := registry.DisplayTasks();
    assert listed == Without([Sample1(), Sample2(), Sample3()], "Task 3");
    shown := registry.DisplayHighestPriorityTasks();
    assert Sample3() in multiset(shown);
  }
}
