# Task registry model

A model of the in-memory task registry of a console task manager (`TaskList` in
`project.cpp`) and of the task record it stores. The registry keeps three
collections side by side:

- a master list of tasks in insertion order;
- for every employee ID, that employee's own copies of the tasks assigned to them;
- a max-priority queue holding a copy of every task added since the queue was last drained.

Its operations are:

- add a task, to the list and to the queue;
- assign a task to an employee;
- remove every task with a given name from the master list;
- replace the first task with a given name;
- list the master list;
- drain the queue, highest priority first;
- list the master list sorted by due date;
- list an employee's tasks sorted by priority, highest first.

Marking a task completed with remarks is modelled as well.

Modules:

- `Tasks` (`task.dfy`): the task record, its constructor and completion.
- `Ordering` (`ordering.dfy`): the two comparators, `std::sort` and what the proofs need about them.
  - Due date uses lexicographic string order.
  - Priority is compared higher first.
  - `std::sort` is modelled as a sort by a comparator, together with what any such sort must produce.
  - The proofs show both comparators are strict weak orders.
  - They show a sorted permutation is unique up to tied elements.
- `Registry` (`registry.dfy`): the `TaskList` class, whose methods update its fields in place, and the functions and lemmas that specify them.
- `Scenarios` (`scenarios.dfy`): the registry run on the program's three start-up tasks.
  - Each query's exact result is derived from the general contracts.
  - The queue keeps tasks that were removed from the master list.

## Model

| member | source | states |
|---|---|---|
| Tasks.NewTask | project.cpp:24-25 | a new task carries the given name, description, due date and priority, is not completed and has empty remarks |
| Tasks.MarkTaskAsCompleted | project.cpp:123-130 | the task becomes completed with the given remarks; name, description, due date and priority are kept |
| Ordering.LexLess | project.cpp:101 | string less-than on due dates, character by character with a proper prefix first: nothing is below the empty string, and a string below another never starts with a larger character |
| Ordering.LexLessAt | project.cpp:101 | two strings equal before position `k` are ordered by their characters at `k` |
| Ordering.LexLessIrreflexive | project.cpp:100-102 | no due date sorts before itself |
| Ordering.LexLessTransitive | project.cpp:100-102 | string less-than on due dates is transitive |
| Ordering.LexLessTotal | project.cpp:100-102 | of two different due dates one sorts before the other |
| Ordering.DueDateBefore | project.cpp:100-102 | the comparator of the due-date sort: earlier due-date string first; tasks due on the same date never come before one another |
| Ordering.QueueBelow | project.cpp:44 | the comparator the priority queue is built with: a task below another has lower priority and leaves the queue after it |
| Ordering.HigherPriority | project.cpp:112-114 | the comparator of the per-employee sort, higher priority first; it is the queue comparator of line 44 with its direction reversed, so it also orders the queue by which task leaves first |
| Ordering.DueDateBeforeIsStrictWeakOrder | project.cpp:100-102 | the due-date comparator handed to `sort` is a strict weak order, as `std::sort` requires |
| Ordering.DueDateTiedIffEqual | project.cpp:100-102 | two tasks are tied under the due-date comparator exactly when their due dates are equal |
| Ordering.HigherPriorityIsStrictWeakOrder | project.cpp:112-114 | the higher-priority-first comparator is a strict weak order |
| Ordering.Insert | project.cpp:100 | inserting a task adds exactly that task to the sequence's multiset of tasks |
| Ordering.InsertIsSorted | project.cpp:100 | inserting into a sorted sequence under a strict weak order keeps it sorted |
| Ordering.SortBy | project.cpp:100 | sorting returns a permutation of its input |
| Ordering.SortByIsSorted | project.cpp:100 | under a strict weak order the sorted result has no element that should come after a later one |
| Ordering.SortedPermutationsAgree | project.cpp:100-102 | two sorted permutations of the same tasks have the same length and tied tasks at every position, so whatever order a sort leaves ties in, it is fixed up to ties |
| Ordering.UniqueSortedArrangement | project.cpp:112-114 | when no two different tasks tie, there is only one sorted permutation |
| Registry.Without | project.cpp:55-59 | the master list after `remove_if` and `erase`: never longer than before; which tasks it keeps and in what order is stated by the lemmas below |
| Registry.WithoutAppend | project.cpp:55-59 | removing by name from a concatenation removes from each part and keeps their order |
| Registry.WithoutCounts | project.cpp:55-59 | after removal a task with the name occurs zero times and every other task as often as before |
| Registry.WithoutNoMatch | project.cpp:55-59 | removal leaves the list unchanged exactly when no task has the name |
| Registry.WithoutIdempotent | project.cpp:55-59 | removing the same name twice is the same as removing it once |
| Registry.AddThenRemove | project.cpp:46-59 | adding a task with a fresh name and removing that name gives back the list from before |
| Registry.FirstNamed | project.cpp:62-63 | the index found holds a task with the name and no earlier task has it; nothing is found exactly when no task has the name |
| Registry.ReplaceFirst | project.cpp:61-68 | the length is kept; the first task with the name becomes the new task and every other position is kept; with no match the list is unchanged |
| Registry.AssignedTo | project.cpp:52 | the employee's entry as `operator[]` yields it: the stored list, or an empty list for an employee with none |
| Registry.HighestExists | project.cpp:44 | a non-empty queue holds a task whose priority is at least that of every task in it |
| Registry.PickHighest | project.cpp:87-88 | the top of a non-empty queue is in the queue, has a priority at least that of every task in it, and no queued task is above it under the queue comparator |
| Registry.TaskList.constructor | project.cpp:44 | a new registry has an empty list, no employees and an empty queue |
| Registry.TaskList.AddTask | project.cpp:46-49 | the task is appended to the list and one copy is added to the queue; employee lists unchanged |
| Registry.TaskList.AssignTaskToEmployee | project.cpp:51-53 | the task is appended to the employee's list, which starts empty for a new employee; the list and the queue unchanged |
| Registry.TaskList.RemoveTask | project.cpp:55-59 | the master list becomes the list without every task of that name, the rest in order; employee lists and the queue unchanged |
| Registry.TaskList.UpdateTask | project.cpp:61-68 | the master list becomes the one with its first task of that name replaced; employee lists and the queue unchanged |
| Registry.TaskList.DisplayTasks | project.cpp:70-78 | the tasks shown are the master list in stored order |
| Registry.TaskList.DisplayHighestPriorityTasks | project.cpp:80-96 | with an empty list nothing is shown and the queue is kept; otherwise every queued task is shown once, highest priority first, and the queue ends empty |
| Registry.TaskList.GetTasksByDueDate | project.cpp:98-104 | the result is a permutation of the list sorted by due date, earliest first; the registry is not changed |
| Registry.TaskList.GetTasksForEmployee | project.cpp:106-119 | an unknown employee gets an empty result and no entry is added; a known employee's stored list is replaced by a permutation of itself sorted by priority, highest first, and returned |
| Registry.RepeatedEmployeeQuery | project.cpp:106-116 | two queries in a row return the same tasks and the same priority at every position |
| Scenarios.Sample1 | project.cpp:174 | start-up task 1, due 2023-11-01 with priority 3 |
| Scenarios.Sample2 | project.cpp:175 | start-up task 2, due 2023-11-05 with priority 2 |
| Scenarios.Sample3 | project.cpp:176 | start-up task 3, due 2023-11-03 with priority 1 |
| Scenarios.LastCharDecides | project.cpp:101 | two strings that differ only in their last character are ordered by that character |
| Scenarios.SampleDatesIncrease | project.cpp:174-176 | the start-up due dates order as task 1, task 3, task 2 |
| Scenarios.ThreeByDueDate | project.cpp:98-104 | three tasks with strictly increasing due dates can only be sorted by due date in that order |
| Scenarios.ThreeByPriority | project.cpp:112-114 | three tasks with strictly decreasing priorities can only be sorted by priority in that order |
| Scenarios.SampleDueDateQuery | project.cpp:174-180 | the start-up registry listed by due date is task 1, task 3, task 2 |
| Scenarios.SampleEmployeeQuery | project.cpp:106-116 | tasks assigned with priorities 2, 1, 3 come back as 3, 2, 1, and a second query returns the same list |
| Scenarios.SampleDrainTwice | project.cpp:80-96 | the start-up queue drains as task 1, task 2, task 3; a second drain shows nothing while the master list still holds all three |
| Scenarios.SampleAddThenRemove | project.cpp:46-59 | adding a task and removing it by name restores the list |
| Scenarios.SampleRemoveThenDrain | project.cpp:55-59 | a task removed from the master list is still shown when the queue is drained |

## Left out

- The interactive menus in `main` and `employeeTaskManagement` are left out. They only read console input and call the registry. One consequence is not modelled: `employeeTaskManagement` marks a per-iteration copy of a task, so a completion never reaches the registry.
- The console output of `displayTasks` and `displayHighestPriorityTasks` is not modelled. Both methods return, as a sequence, the tasks they would print, in printing order.
- Console reads in `markTaskAsCompleted` are not modelled. The remarks line read from the console becomes a parameter.
- Tasks.MarkTaskAsCompleted: returns the updated record rather than updating a `Task&` in place. Tasks are values here, so aliasing of the caller's task is not modelled.
- The `Employee` class is left out because the registry never uses it. The `dependencies` field of `Task` is left out because nothing reads or writes it.
- The 1 to 5 priority range is checked by the menu, not by the registry. Priorities here are unbounded integers, and `int` overflow cannot arise because priorities are only compared.
- Registry.PickHighest: the heap layout of `std::priority_queue` is not modelled. Which of several equal-priority tasks comes out first is left open.
- Ordering.SortBy: an insertion sort standing in for `std::sort`. Every caller's contract promises only a sorted permutation, and the order `std::sort` leaves ties in is not modelled. Scenarios and `Ordering.SortedPermutationsAgree` show what follows regardless.
- Ordering.LexLess: compares `char` values as Dafny characters, not as the unsigned bytes `std::string` compares. For the ASCII dates the program uses, the two orders agree.
- `std::sort` is not stable, so neither sorted listing promises an order for ties, and a repeated employee query can reorder equal-priority tasks. Registry.RepeatedEmployeeQuery proves what does hold: the same tasks, with the same priority at every position.
- Removing or updating a task changes only the master list. The queue and employee lists keep their old copies. Draining is guarded by the master list being non-empty, not by the queue. The model keeps all three behaviours (Scenarios.SampleRemoveThenDrain).
