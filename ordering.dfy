/** The orders the registry sorts by, and the sort itself.

    Both sorts in the registry call a library sort with a "less than" comparator,
    which promises a sorted permutation and nothing about ties. Here the sort is
    `SortBy`, an insertion sort over a comparator; callers rely only on
    `SortByIsSorted` and the multiset equality in its contract. */
module Ordering {
  import opened Tasks

  /** `a` comes strictly before `b` in lexicographic order, character by character,
      a proper prefix coming first: the order of `<` on strings. */
  predicate LexLess(a: string, b: string)
    ensures LexLess(a, b) ==> |b| != 0
    ensures LexLess(a, b) && |a| != 0 ==> a[0] <= b[0]
    decreases |a|
  {
    if |a| == 0 then |b| != 0
    else |b| != 0 && (if a[0] == b[0] then LexLess(a[1..], b[1..]) else a[0] < b[0])
  }

  lemma {:induction false} LexLessIrreflexive(a: string)
    ensures !LexLess(a, a)
    decreases |a|
  {
    if |a| != 0 {
      LexLessIrreflexive(a[1..]);
    }
  }

  lemma {:induction false} LexLessTransitive(a: string, b: string, c: string)
    requires LexLess(a, b) && LexLess(b, c)
    ensures LexLess(a, c)
    decreases |a|
  {
    if |a| != 0 && a[0] == b[0] && b[0] == c[0] {
      LexLessTransitive(a[1..], b[1..], c[1..]);
    }
  }

  lemma {:induction false} LexLessTotal(a: string, b: string)
    ensures a == b || LexLess(a, b) || LexLess(b, a)
    decreases |a|
  {
    if |a| != 0 && |b| != 0 && a[0] == b[0] {
      LexLessTotal(a[1..], b[1..]);
      if a[1..] == b[1..] {
        assert a == [a[0]] + a[1..] && b == [b[0]] + b[1..];
      }
    }
  }

  /** Two strings that agree before position `k` and differ at `k` are ordered by
      the characters at `k`. */
  lemma {:induction false} LexLessAt(a: string, b: string, k: nat)
    requires k < |a| && k < |b| && a[..k] == b[..k] && a[k] < b[k]
    ensures LexLess(a, b)
    decreases k
  {
    if k != 0 {
      assert a[0] == a[..k][0] == b[..k][0] == b[0];
      assert a[1..][..k - 1] == a[..k][1..] == b[..k][1..] == b[1..][..k - 1];
      LexLessAt(a[1..], b[1..], k - 1);
    }
  }

  /** The comparator of the due-date query: earlier due-date string first. Tasks
      due on the same date never come before one another. */
  predicate DueDateBefore(t1: Task, t2: Task)
    ensures t1.dueDate == t2.dueDate ==> !DueDateBefore(t1, t2)
  {
    LexLessIrreflexive(t1.dueDate);
    LexLess(t1.dueDate, t2.dueDate)
  }

  /** The comparator the priority queue is built with: `t1` is below `t2`, so `t2`
      leaves the queue before `t1`. */
  predicate QueueBelow(t1: Task, t2: Task) {
    t1.priority < t2.priority
  }

  /** The comparator of the per-employee query: higher priority first. It is the
      queue's comparator with its arguments swapped, so it also orders the queue
      by which task leaves first. */
  predicate HigherPriority(t1: Task, t2: Task)
    ensures HigherPriority(t1, t2) <==> QueueBelow(t2, t1)
  {
    t1.priority > t2.priority
  }

  /** What a sort comparator must be: irreflexive, transitive, and such that
      incomparability is transitive (stated as: whenever x < z, any y is above x
      or below z). */
  ghost predicate StrictWeakOrder(less: (Task, Task) -> bool) {
    && (forall x :: !less(x, x))
    && (forall x, y, z :: less(x, y) && less(y, z) ==> less(x, z))
    && (forall x, y, z :: less(x, z) ==> less(x, y) || less(y, z))
  }

  /** Neither task comes before the other. */
  ghost predicate Tied(x: Task, y: Task, less: (Task, Task) -> bool) {
    !less(x, y) && !less(y, x)
  }

  /** No later element comes strictly before an earlier one. */
  ghost predicate Sorted(s: seq<Task>, less: (Task, Task) -> bool) {
    forall i, j :: 0 <= i < j < |s| ==> !less(s[j], s[i])
  }

  lemma DueDateBeforeIsStrictWeakOrder()
    ensures StrictWeakOrder(DueDateBefore)
  {
    forall x: Task ensures !DueDateBefore(x, x) {
      LexLessIrreflexive(x.dueDate);
    }
    forall x: Task, y: Task, z: Task | DueDateBefore(x, y) && DueDateBefore(y, z)
      ensures DueDateBefore(x, z)
    {
      LexLessTransitive(x.dueDate, y.dueDate, z.dueDate);
    }
    forall x: Task, y: Task, z: Task | DueDateBefore(x, z)
      ensures DueDateBefore(x, y) || DueDateBefore(y, z)
    {
      LexLessTotal(x.dueDate, y.dueDate);
      if LexLess(y.dueDate, x.dueDate) {
        LexLessTransitive(y.dueDate, x.dueDate, z.dueDate);
      }
    }
  }

  /** Two tasks tie on the due-date order exactly when their due dates are equal. */
  lemma DueDateTiedIffEqual(x: Task, y: Task)
    ensures Tied(x, y, DueDateBefore) <==> x.dueDate == y.dueDate
  {
    LexLessTotal(x.dueDate, y.dueDate);
    LexLessIrreflexive(x.dueDate);
  }

  lemma HigherPriorityIsStrictWeakOrder()
    ensures StrictWeakOrder(HigherPriority)
  {
  }

  /** Inserts `x` before the first element that `x` does not come after. */
  function Insert(x: Task, s: seq<Task>, less: (Task, Task) -> bool): (r: seq<Task>)
    ensures multiset(r) == multiset(s) + multiset{x}
    decreases |s|
  {
    if s == [] || !less(s[0], x) then [x] + s
    else
      assert s == [s[0]] + s[1..];
      [s[0]] + Insert(x, s[1..], less)
  }

  /** The library sort: a permutation of `s` (see `SortByIsSorted` for the order). */
  function SortBy(s: seq<Task>, less: (Task, Task) -> bool): (r: seq<Task>)
    ensures multiset(r) == multiset(s)
    decreases |s|
  {
    if s == [] then []
    else
      assert s == [s[0]] + s[1..];
      Insert(s[0], SortBy(s[1..], less), less)
  }

  lemma {:induction false} InsertIsSorted(x: Task, s: seq<Task>, less: (Task, Task) -> bool)
    requires StrictWeakOrder(less) && Sorted(s, less)
    ensures Sorted(Insert(x, s, less), less)
    decreases |s|
  {
    var r := Insert(x, s, less);
    if s == [] || !less(s[0], x) {
    } else {
      var t := Insert(x, s[1..], less);
      InsertIsSorted(x, s[1..], less);
      forall j | 0 <= j < |t| ensures !less(t[j], s[0]) {
        assert t[j] in multiset(t);
        if t[j] != x {
          assert t[j] in multiset(s[1..]);
          var k :| 0 <= k < |s[1..]| && s[1..][k] == t[j];
          assert s[k + 1] == t[j];
        }
      }
      assert r == [s[0]] + t;
    }
  }

  /** The sort returns its input in order. */
  lemma {:induction false} SortByIsSorted(s: seq<Task>, less: (Task, Task) -> bool)
    requires StrictWeakOrder(less)
    ensures Sorted(SortBy(s, less), less)
    decreases |s|
  {
    if s != [] {
      SortByIsSorted(s[1..], less);
      InsertIsSorted(s[0], SortBy(s[1..], less), less);
    }
  }

  lemma TiedIsTransitive(x: Task, y: Task, z: Task, less: (Task, Task) -> bool)
    requires StrictWeakOrder(less)
    requires Tied(x, y, less) && Tied(y, z, less)
    ensures Tied(x, z, less)
  {
  }

  /** The first elements of two sorted arrangements of the same tasks tie. */
  lemma SortedHeadsTie(a: seq<Task>, b: seq<Task>, less: (Task, Task) -> bool)
    requires StrictWeakOrder(less)
    requires Sorted(a, less) && Sorted(b, less) && multiset(a) == multiset(b)
    requires a != []
    ensures b != [] && Tied(a[0], b[0], less)
  {
    assert a[0] in multiset(b);
    var j :| 0 <= j < |b| && b[j] == a[0];
    assert b[0] in multiset(a);
    var k :| 0 <= k < |a| && a[k] == b[0];
    if k != 0 { assert !less(a[k], a[0]); }
    if j != 0 { assert !less(b[j], b[0]); }
  }

  lemma DropAtMultiset(a: seq<Task>, b: seq<Task>, j: nat)
    requires multiset(a) == multiset(b) && a != [] && j < |b| && b[j] == a[0]
    ensures multiset(a[1..]) == multiset(DropAt(b, j))
  {
    MultisetOfTail(a);
    MultisetOfTail(b);
    if j != 0 {
      MultisetOfUpdate(b[1..], j - 1, b[0]);
    }
  }

  lemma MultisetOfTail(s: seq<Task>)
    requires s != []
    ensures multiset(s[1..]) == multiset(s) - multiset{s[0]}
  {
    assert s == [s[0]] + s[1..];
  }

  lemma MultisetOfUpdate(s: seq<Task>, i: nat, v: Task)
    requires i < |s|
    ensures multiset(s[i := v]) == multiset(s) - multiset{s[i]} + multiset{v}
  {
    assert s == s[..i] + [s[i]] + s[i + 1..];
    assert s[i := v] == s[..i] + [v] + s[i + 1..];
  }

  /** What is left of `b` ties with `b`'s tail position by position. */
  lemma DropAtTies(b: seq<Task>, j: nat, less: (Task, Task) -> bool)
    requires StrictWeakOrder(less)
    requires j < |b| && Tied(b[0], b[j], less)
    ensures forall i :: 0 <= i < |b| - 1 ==> Tied(DropAt(b, j)[i], b[i + 1], less)
  {
    var c := DropAt(b, j);
    forall i | 0 <= i < |b| - 1 ensures Tied(c[i], b[i + 1], less) {
      if i + 1 == j {
        assert c[i] == b[0];
      } else {
        assert c[i] == b[i + 1];
      }
    }
  }

  /** `b`'s tail, except that when `j > 0` its element `b[j]` is replaced by `b[0]`:
      `b` with the element at `j` taken out, the rest keeping their positions up to
      ties. */
  function DropAt(b: seq<Task>, j: nat): seq<Task>
    requires j < |b|
  {
    if j == 0 then b[1..] else b[1..][j - 1 := b[0]]
  }

  lemma DropAtSorted(b: seq<Task>, j: nat, less: (Task, Task) -> bool)
    requires StrictWeakOrder(less) && Sorted(b, less)
    requires j < |b| && Tied(b[0], b[j], less)
    ensures Sorted(DropAt(b, j), less)
  {
  }

  /** Agreement up to ties carries over from the tails to the whole sequences. */
  lemma AgreeFromTails(a: seq<Task>, b: seq<Task>, c: seq<Task>, less: (Task, Task) -> bool)
    requires StrictWeakOrder(less)
    requires a != [] && |b| == |a| && |c| == |a| - 1 && Tied(a[0], b[0], less)
    requires forall i :: 0 <= i < |c| ==> Tied(a[1..][i], c[i], less)
    requires forall i :: 0 <= i < |c| ==> Tied(c[i], b[1..][i], less)
    ensures forall i :: 0 <= i < |a| ==> Tied(a[i], b[i], less)
  {
    forall i | 0 < i < |a| ensures Tied(a[i], b[i], less) {
      assert Tied(a[1..][i - 1], c[i - 1], less) && Tied(c[i - 1], b[1..][i - 1], less);
      TiedIsTransitive(a[i], c[i - 1], b[i], less);
    }
  }

  /** Appending a task that comes before none of the others keeps a list sorted. */
  lemma SortedAppend(s: seq<Task>, x: Task, less: (Task, Task) -> bool)
    requires Sorted(s, less)
    requires forall i :: 0 <= i < |s| ==> !less(x, s[i])
    ensures Sorted(s + [x], less)
  {
  }

  /** Any two sorted arrangements of the same tasks agree position by position up
      to ties: a sort that does not keep ties in order can only differ in how it
      arranges tied tasks. */
  lemma {:induction false} SortedPermutationsAgree(a: seq<Task>, b: seq<Task>, less: (Task, Task) -> bool)
    requires StrictWeakOrder(less)
    requires Sorted(a, less) && Sorted(b, less) && multiset(a) == multiset(b)
    ensures |a| == |b|
    ensures forall i :: 0 <= i < |a| ==> Tied(a[i], b[i], less)
    decreases |a|
  {
    assert |a| == |multiset(a)| == |multiset(b)| == |b|;
    if a != [] {
      SortedHeadsTie(a, b, less);
      assert a[0] in multiset(b);
      var j :| 0 <= j < |b| && b[j] == a[0];
      var c := DropAt(b, j);
      DropAtMultiset(a, b, j);
      DropAtSorted(b, j, less);
      DropAtTies(b, j, less);
      SortedPermutationsAgree(a[1..], c, less);
      AgreeFromTails(a, b, c, less);
    }
  }

  /** When no two different tasks tie, the sorted arrangement of a collection of
      tasks is unique, so any sort returns exactly it. */
  lemma UniqueSortedArrangement(r: seq<Task>, e: seq<Task>, less: (Task, Task) -> bool)
    requires StrictWeakOrder(less)
    requires Sorted(r, less) && Sorted(e, less) && multiset(r) == multiset(e)
    requires forall x, y :: x in e && y in e && Tied(x, y, less) ==> x == y
    ensures r == e
  {
    SortedPermutationsAgree(r, e, less);
    forall i | 0 <= i < |r| ensures r[i] == e[i] {
      assert r[i] in multiset(e);
    }
  }
}
