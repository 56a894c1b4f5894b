/**
 * The selection functions of the core package's time module: whether a
 * moment falls in a user's quiet hours, and which open tasks fit a free
 * slot, in the order they should be offered.
 */
module Selection {
  import opened Common
  import opened Schemas

  /** A local time of day, in milliseconds since local midnight. */
  type MsOfDay = t: int | 0 <= t < MsPerDay

  /**
   * The quiet-hours test on times of day: an inclusive window when it does
   * not cross midnight, otherwise the union of "from start on" and "up to
   * end".
   */
  predicate InWindow(start: int, end: int, t: int)
  {
    if start > end then t >= start || t <= end
    else t >= start && t <= end
  }

  /**
   * The window as an arc of the 24-hour dial: `t` is quiet when it lies no
   * further clockwise from `start` than `end` does.
   */
  predicate OnArc(start: int, end: int, t: int)
  {
    (t - start) % MsPerDay <= (end - start) % MsPerDay
  }

  /** The branchy test and the arc agree on every time of day. */
  lemma InWindowIsArc(start: MsOfDay, end: MsOfDay, t: MsOfDay)
    ensures InWindow(start, end, t) <==> OnArc(start, end, t)
  {
    var d := MsPerDay;
    if t >= start {
      assert (t - start) % d == t - start;
    } else {
      assert (t - start) % d == t - start + d;
    }
    if end >= start {
      assert (end - start) % d == end - start;
    } else {
      assert (end - start) % d == end - start + d;
    }
  }

  /**
   * `isInQuietHours(user, time)`. A start or end that is not `HH:mm` makes
   * the Luxon value invalid; every comparison with it is false, and so is
   * the answer.
   */
  function IsInQuietHours(user: User, time: MsOfDay): (quiet: bool)
    ensures quiet ==> IsClockTime(user.quietHoursStart) && IsClockTime(user.quietHoursEnd)
    ensures IsClockTime(user.quietHoursStart) && IsClockTime(user.quietHoursEnd) ==>
      (quiet <==> OnArc(ClockTimeMs(user.quietHoursStart), ClockTimeMs(user.quietHoursEnd), time))
  {
    if IsClockTime(user.quietHoursStart) && IsClockTime(user.quietHoursEnd) then
      var start, end := ClockTimeMs(user.quietHoursStart), ClockTimeMs(user.quietHoursEnd);
      InWindowIsArc(start, end, time);
      InWindow(start, end, time)
    else false
  }

  /** A same-day window holds exactly the times between its ends, both included. */
  lemma SameDayWindow(user: User, time: MsOfDay)
    requires IsClockTime(user.quietHoursStart) && IsClockTime(user.quietHoursEnd)
    requires ClockTimeMs(user.quietHoursStart) <= ClockTimeMs(user.quietHoursEnd)
    ensures IsInQuietHours(user, time)
      <==> ClockTimeMs(user.quietHoursStart) <= time <= ClockTimeMs(user.quietHoursEnd)
  {
  }

  /** A window across midnight holds the times from its start on and up to its end. */
  lemma MidnightWindow(user: User, time: MsOfDay)
    requires IsClockTime(user.quietHoursStart) && IsClockTime(user.quietHoursEnd)
    requires ClockTimeMs(user.quietHoursStart) > ClockTimeMs(user.quietHoursEnd)
    ensures IsInQuietHours(user, time)
      <==> (time >= ClockTimeMs(user.quietHoursStart) || time <= ClockTimeMs(user.quietHoursEnd))
  {
  }

  /** Equal start and end make a window of one instant. */
  lemma SingleInstantWindow(user: User, time: MsOfDay)
    requires IsClockTime(user.quietHoursStart)
    requires user.quietHoursEnd == user.quietHoursStart
    ensures IsInQuietHours(user, time) <==> time == ClockTimeMs(user.quietHoursStart)
  {
  }

  /**
   * The window ends at the end instant itself: even within the end minute,
   * a later millisecond is outside when the window does not cross midnight.
   */
  lemma EndIsInstant(user: User, time: MsOfDay)
    requires IsClockTime(user.quietHoursStart) && IsClockTime(user.quietHoursEnd)
    requires ClockTimeMs(user.quietHoursStart) <= ClockTimeMs(user.quietHoursEnd)
    requires ClockTimeMs(user.quietHoursEnd) < time < ClockTimeMs(user.quietHoursEnd) + MsPerMinute
    ensures !IsInQuietHours(user, time)
  {
  }

  /** Malformed quiet hours are never quiet. */
  lemma MalformedWindowIsNeverQuiet(user: User, time: MsOfDay)
    requires !IsClockTime(user.quietHoursStart) || !IsClockTime(user.quietHoursEnd)
    ensures !IsInQuietHours(user, time)
  {
  }

  /**
   * With the default 22:00-08:00 window, 22:00 and 08:00 are quiet, 23:00
   * too, while 21:59 and 08:01 and 10:00 are not.
   */
  lemma DefaultWindowBoundaries(user: User)
    requires user.quietHoursStart == DefaultQuietHoursStart
    requires user.quietHoursEnd == DefaultQuietHoursEnd
    ensures IsInQuietHours(user, 22 * MsPerHour)
    ensures IsInQuietHours(user, 8 * MsPerHour)
    ensures IsInQuietHours(user, 23 * MsPerHour)
    ensures !IsInQuietHours(user, 21 * MsPerHour + 59 * MsPerMinute)
    ensures !IsInQuietHours(user, 8 * MsPerHour + MsPerMinute)
    ensures !IsInQuietHours(user, 10 * MsPerHour)
  {
    DefaultQuietHours();
  }

  /** The filter of `findFittingTasks`: open, not deleted, and short enough. */
  predicate Fits(t: Task, availableMinutes: int)
  {
    !t.isCompleted && t.deletedAt.None? && t.durationMinutes <= availableMinutes
  }

  /**
   * `a` can be obtained from `b` by deleting elements: matching from the
   * back, the last element of `a` is taken as late in `b` as possible.
   */
  predicate IsSubsequence(a: seq<Task>, b: seq<Task>)
    decreases |b|
  {
    if |a| == 0 then true
    else if |b| == 0 then false
    else if a[|a| - 1] == b[|b| - 1] then IsSubsequence(a[..|a| - 1], b[..|b| - 1])
    else IsSubsequence(a, b[..|b| - 1])
  }

  /** `tasks.filter(...)`: the fitting tasks, in input order. */
  function FilterFitting(tasks: seq<Task>, availableMinutes: int): (r: seq<Task>)
    ensures forall i :: 0 <= i < |r| ==> Fits(r[i], availableMinutes)
    ensures forall t :: multiset(r)[t] == if Fits(t, availableMinutes) then multiset(tasks)[t] else 0
    ensures IsSubsequence(r, tasks)
    ensures |r| <= |tasks|
    decreases |tasks|
  {
    if |tasks| == 0 then []
    else
      var init := tasks[..|tasks| - 1];
      var rest := FilterFitting(init, availableMinutes);
      var last := tasks[|tasks| - 1];
      assert tasks == init + [last];
      var r := if Fits(last, availableMinutes) then rest + [last] else rest;
      CountStep(init, last, availableMinutes, rest, r);
      FilterStep(init, last, availableMinutes, rest, r);
      r
  }

  /** One more input task: the filtered list gains it exactly when it fits, at the end. */
  lemma FilterStep(init: seq<Task>, last: Task, availableMinutes: int, rest: seq<Task>, r: seq<Task>)
    requires forall i :: 0 <= i < |rest| ==> Fits(rest[i], availableMinutes)
    requires IsSubsequence(rest, init)
    requires r == if Fits(last, availableMinutes) then rest + [last] else rest
    ensures forall i :: 0 <= i < |r| ==> Fits(r[i], availableMinutes)
    ensures IsSubsequence(r, init + [last])
  {
    if Fits(last, availableMinutes) {
      assert forall i :: 0 <= i < |rest| ==> r[i] == rest[i];
      SubsequenceExtend(rest, init, last);
    } else {
      SubsequenceSkip(rest, init, last);
    }
  }

  /** One more input task: its count moves to the filtered list exactly when it fits. */
  lemma CountStep(init: seq<Task>, last: Task, availableMinutes: int, rest: seq<Task>, r: seq<Task>)
    requires forall t :: multiset(rest)[t] == if Fits(t, availableMinutes) then multiset(init)[t] else 0
    requires r == if Fits(last, availableMinutes) then rest + [last] else rest
    ensures forall t :: multiset(r)[t] == if Fits(t, availableMinutes) then multiset(init + [last])[t] else 0
  {
    assert multiset(init + [last]) == multiset(init) + multiset{last};
    assert multiset(rest + [last]) == multiset(rest) + multiset{last};
  }

  lemma SubsequenceExtend(a: seq<Task>, b: seq<Task>, x: Task)
    requires IsSubsequence(a, b)
    ensures IsSubsequence(a + [x], b + [x])
  {
    assert (a + [x])[..|a|] == a && (b + [x])[..|b|] == b;
  }

  lemma SubsequenceSkip(a: seq<Task>, b: seq<Task>, x: Task)
    requires IsSubsequence(a, b) && (|a| == 0 || a[|a| - 1] != x)
    ensures IsSubsequence(a, b + [x])
  {
    assert (b + [x])[..|b|] == b;
  }

  /** Filtering and picking one key class commute. */
  lemma {:induction false} FilterWithKey(tasks: seq<Task>, availableMinutes: int, k: SortKey)
    ensures WithKey(FilterFitting(tasks, availableMinutes), k) == FilterFitting(WithKey(tasks, k), availableMinutes)
    decreases |tasks|
  {
    if |tasks| > 0 {
      var init, last := tasks[..|tasks| - 1], tasks[|tasks| - 1];
      assert tasks == init + [last];
      FilterWithKey(init, availableMinutes, k);
      FilterSnoc(init, last, availableMinutes);
      var f := FilterFitting(init, availableMinutes);
      assert (f + [last])[..|f|] == f;
      if KeyOf(last) == k {
        FilterSnoc(WithKey(init, k), last, availableMinutes);
      } else {
        assert WithKey(tasks, k) == WithKey(init, k);
      }
    }
  }

  /**
   * The comparator handed to `sort`: dated tasks by due instant, dated
   * before undated, undated by duration, longest first.
   */
  function CompareTasks(a: Task, b: Task): int
  {
    if a.dueAt.Some? && b.dueAt.Some? then a.dueAt.value - b.dueAt.value
    else if a.dueAt.Some? then -1
    else if b.dueAt.Some? then 1
    else b.durationMinutes - a.durationMinutes
  }

  /** The three-tier key the comparator orders by. */
  datatype SortKey = SortKey(tier: int, weight: int)

  function KeyOf(t: Task): SortKey
  {
    if t.dueAt.Some? then SortKey(0, t.dueAt.value) else SortKey(1, -t.durationMinutes)
  }

  predicate KeyLess(a: SortKey, b: SortKey)
  {
    a.tier < b.tier || (a.tier == b.tier && a.weight < b.weight)
  }

  /** The comparator is the lexicographic order on the key. */
  lemma ComparatorIsKeyOrder(a: Task, b: Task)
    ensures CompareTasks(a, b) < 0 <==> KeyLess(KeyOf(a), KeyOf(b))
    ensures CompareTasks(a, b) == 0 <==> KeyOf(a) == KeyOf(b)
    ensures CompareTasks(a, b) > 0 <==> KeyLess(KeyOf(b), KeyOf(a))
  {
  }

  predicate SortedByComparator(s: seq<Task>)
  {
    forall i, j :: 0 <= i < j < |s| ==> CompareTasks(s[i], s[j]) <= 0
  }

  /** The tasks of `s` with key `k`, in order. */
  function WithKey(s: seq<Task>, k: SortKey): (r: seq<Task>)
    decreases |s|
  {
    if |s| == 0 then []
    else WithKey(s[..|s| - 1], k) + (if KeyOf(s[|s| - 1]) == k then [s[|s| - 1]] else [])
  }

  lemma {:induction false} WithKeyAppend(a: seq<Task>, b: seq<Task>, k: SortKey)
    ensures WithKey(a + b, k) == WithKey(a, k) + WithKey(b, k)
    decreases |b|
  {
    if |b| == 0 {
      assert a + b == a;
    } else {
      assert (a + b)[..|a + b| - 1] == a + b[..|b| - 1];
      WithKeyAppend(a, b[..|b| - 1], k);
    }
  }

  /**
   * Places `x` after every element of `sorted` that does not compare above
   * it, so that it lands behind its equals.
   */
  function Insert(sorted: seq<Task>, x: Task): (r: seq<Task>)
    requires SortedByComparator(sorted)
    ensures SortedByComparator(r)
    ensures multiset(r) == multiset(sorted) + multiset{x}
    ensures forall k :: WithKey(r, k) == WithKey(sorted + [x], k)
    decreases |sorted|
  {
    if |sorted| == 0 || CompareTasks(sorted[|sorted| - 1], x) <= 0 then
      InsertAtEnd(sorted, x);
      sorted + [x]
    else
      var init, last := sorted[..|sorted| - 1], sorted[|sorted| - 1];
      assert sorted == init + [last];
      var r := Insert(init, x) + [last];
      InsertBehind(init, last, x, Insert(init, x));
      r
  }

  lemma InsertAtEnd(sorted: seq<Task>, x: Task)
    requires SortedByComparator(sorted)
    requires |sorted| == 0 || CompareTasks(sorted[|sorted| - 1], x) <= 0
    ensures SortedByComparator(sorted + [x])
  {
    var r := sorted + [x];
    forall i, j | 0 <= i < j < |r|
      ensures CompareTasks(r[i], r[j]) <= 0
    {
      if j == |sorted| && i < |sorted| - 1 {
        ComparatorIsKeyOrder(r[i], sorted[|sorted| - 1]);
        ComparatorIsKeyOrder(sorted[|sorted| - 1], x);
        ComparatorIsKeyOrder(r[i], x);
      }
    }
  }

  lemma InsertBehind(init: seq<Task>, last: Task, x: Task, inserted: seq<Task>)
    requires SortedByComparator(init + [last])
    requires CompareTasks(last, x) > 0
    requires SortedByComparator(inserted)
    requires multiset(inserted) == multiset(init) + multiset{x}
    requires forall k :: WithKey(inserted, k) == WithKey(init + [x], k)
    ensures SortedByComparator(inserted + [last])
    ensures multiset(inserted + [last]) == multiset(init + [last]) + multiset{x}
    ensures forall k :: WithKey(inserted + [last], k) == WithKey(init + [last] + [x], k)
  {
    LastBoundsInserted(init, last, x, inserted);
    SortedWithUpperBound(inserted, last);
    forall k
      ensures WithKey(inserted + [last], k) == WithKey(init + [last] + [x], k)
    {
      KeysCommute(init, last, x, inserted, k);
    }
  }

  /** Every element of `inserted` compares at most `last`. */
  lemma LastBoundsInserted(init: seq<Task>, last: Task, x: Task, inserted: seq<Task>)
    requires SortedByComparator(init + [last])
    requires CompareTasks(last, x) > 0
    requires multiset(inserted) == multiset(init) + multiset{x}
    ensures forall i :: 0 <= i < |inserted| ==> CompareTasks(inserted[i], last) <= 0
  {
    forall i | 0 <= i < |inserted|
      ensures CompareTasks(inserted[i], last) <= 0
    {
      assert inserted[i] in multiset(inserted);
      if inserted[i] == x {
        ComparatorIsKeyOrder(last, x);
      } else {
        assert inserted[i] in multiset(init);
        var m :| 0 <= m < |init| && init[m] == inserted[i];
        assert (init + [last])[m] == init[m] && (init + [last])[|init|] == last;
      }
    }
  }

  lemma SortedWithUpperBound(s: seq<Task>, top: Task)
    requires SortedByComparator(s)
    requires forall i :: 0 <= i < |s| ==> CompareTasks(s[i], top) <= 0
    ensures SortedByComparator(s + [top])
  {
    var r := s + [top];
    forall i, j | 0 <= i < j < |r|
      ensures CompareTasks(r[i], r[j]) <= 0
    {
      if j == |s| {
        assert r[i] == s[i];
      } else {
        assert r[i] == s[i] && r[j] == s[j];
      }
    }
  }

  /** `last` and `x` have different keys, so their order within one key class is moot. */
  lemma KeysCommute(init: seq<Task>, last: Task, x: Task, inserted: seq<Task>, k: SortKey)
    requires CompareTasks(last, x) > 0
    requires WithKey(inserted, k) == WithKey(init + [x], k)
    ensures WithKey(inserted + [last], k) == WithKey(init + [last] + [x], k)
  {
    ComparatorIsKeyOrder(last, x);
    WithKeyAppend(inserted, [last], k);
    WithKeyAppend(init, [x], k);
    WithKeyAppend(init + [last], [x], k);
    WithKeyAppend(init, [last], k);
    assert WithKey([x], k) == WithKey([x][..0], k) + (if KeyOf(x) == k then [x] else []);
    assert WithKey([last], k) == WithKey([last][..0], k) + (if KeyOf(last) == k then [last] else []);
  }

  /** Stable insertion sort by `CompareTasks`. */
  function SortTasks(s: seq<Task>): (r: seq<Task>)
    ensures SortedByComparator(r)
    ensures multiset(r) == multiset(s)
    ensures forall k :: WithKey(r, k) == WithKey(s, k)
    decreases |s|
  {
    if |s| == 0 then []
    else
      var init, last := s[..|s| - 1], s[|s| - 1];
      assert s == init + [last];
      var r := Insert(SortTasks(init), last);
      forall k
        ensures WithKey(r, k) == WithKey(s, k)
      {
        WithKeyAppend(SortTasks(init), [last], k);
        WithKeyAppend(init, [last], k);
      }
      r
  }

  /**
   * `findFittingTasks(tasks, availableMinutes)`: exactly the fitting tasks,
   * each as often as in the input, sorted by the comparator, and tasks
   * with equal keys in their input order: the tasks of one key class are
   * the fitting tasks of that class of the input, in input order.
   */
  function FindFittingTasks(tasks: seq<Task>, availableMinutes: int): (r: seq<Task>)
    ensures forall i :: 0 <= i < |r| ==> Fits(r[i], availableMinutes)
    ensures forall t :: multiset(r)[t] == if Fits(t, availableMinutes) then multiset(tasks)[t] else 0
    ensures SortedByComparator(r)
    ensures forall k :: WithKey(r, k) == FilterFitting(WithKey(tasks, k), availableMinutes)
  {
    var fitting := FilterFitting(tasks, availableMinutes);
    var r := SortTasks(fitting);
    forall i | 0 <= i < |r|
      ensures Fits(r[i], availableMinutes)
    {
      assert r[i] in multiset(fitting);
    }
    forall k
      ensures WithKey(r, k) == FilterFitting(WithKey(tasks, k), availableMinutes)
    {
      FilterWithKey(tasks, availableMinutes, k);
    }
    r
  }

  /**
   * What the sorted order means task by task: a dated task never follows
   * an undated one, dated tasks come by ascending due instant, and undated
   * ones by descending duration.
   */
  lemma FittingOrder(tasks: seq<Task>, availableMinutes: int, i: int, j: int)
    requires 0 <= i < j < |FindFittingTasks(tasks, availableMinutes)|
    ensures var r := FindFittingTasks(tasks, availableMinutes);
      && (r[j].dueAt.Some? ==> r[i].dueAt.Some? && r[i].dueAt.value <= r[j].dueAt.value)
      && (r[i].dueAt.None? ==> r[j].dueAt.None? && r[i].durationMinutes >= r[j].durationMinutes)
  {
  }

  /**
   * The sorting example of the core package's tests: an undated 10-minute
   * task, a 20-minute task due later and a 5-minute task due earlier, with
   * 30 minutes free, come out earliest-due first and the undated one last.
   */
  lemma SortingExample(t1: Task, t2: Task, t3: Task)
    requires Fits(t1, 30) && Fits(t2, 30) && Fits(t3, 30)
    requires t1.dueAt.None? && t2.dueAt.Some? && t3.dueAt.Some?
    requires t3.dueAt.value < t2.dueAt.value
    ensures FindFittingTasks([t1, t2, t3], 30) == [t3, t2, t1]
  {
    var tasks := [t1, t2, t3];
    FilterAllFitting(tasks, 30);
    SortThreeExample(t1, t2, t3);
    SortOfFilter(tasks, 30);
  }

  lemma SortOfFilter(tasks: seq<Task>, availableMinutes: int)
    ensures FindFittingTasks(tasks, availableMinutes) == SortTasks(FilterFitting(tasks, availableMinutes))
  {
  }

  /** A list of tasks that all fit passes the filter whole. */
  lemma {:induction false} FilterAllFitting(tasks: seq<Task>, availableMinutes: int)
    requires forall i :: 0 <= i < |tasks| ==> Fits(tasks[i], availableMinutes)
    ensures FilterFitting(tasks, availableMinutes) == tasks
    decreases |tasks|
  {
    if |tasks| > 0 {
      var init, last := tasks[..|tasks| - 1], tasks[|tasks| - 1];
      assert tasks == init + [last];
      FilterAllFitting(init, availableMinutes);
      FilterSnoc(init, last, availableMinutes);
    }
  }

  lemma FilterSnoc(init: seq<Task>, last: Task, availableMinutes: int)
    ensures FilterFitting(init + [last], availableMinutes)
      == if Fits(last, availableMinutes) then FilterFitting(init, availableMinutes) + [last] else FilterFitting(init, availableMinutes)
  {
    assert (init + [last])[..|init|] == init;
  }

  lemma SortThreeExample(t1: Task, t2: Task, t3: Task)
    requires t1.dueAt.None? && t2.dueAt.Some? && t3.dueAt.Some?
    requires t3.dueAt.value < t2.dueAt.value
    ensures SortTasks([t1, t2, t3]) == [t3, t2, t1]
  {
    assert [t1, t2, t3][..2] == [t1, t2] && [t1, t2][..1] == [t1] && [t1][..0] == [];
    assert SortTasks([t1]) == [t1];
    InsertBeforeOne(t1, t2);
    assert SortTasks([t1, t2]) == [t2, t1];
    InsertBeforeTwo(t2, t1, t3);
  }

  lemma InsertBeforeOne(a: Task, x: Task)
    requires CompareTasks(a, x) > 0
    ensures Insert([a], x) == [x, a]
  {
    assert [a][..0] == [];
  }

  lemma InsertBeforeTwo(a: Task, b: Task, x: Task)
    requires SortedByComparator([a, b])
    requires CompareTasks(a, x) > 0 && CompareTasks(b, x) > 0
    ensures Insert([a, b], x) == [x, a, b]
  {
    assert [a, b][..1] == [a];
    InsertBeforeOne(a, x);
  }

  /**
   * The filtering examples of the core package's tests: a task longer than
   * the free time, a completed task and a deleted task are all left out.
   */
  lemma FilterExamples(short: Task, long: Task, done: Task, deleted: Task)
    requires !short.isCompleted && short.deletedAt.None? && short.durationMinutes == 10
    requires long.durationMinutes == 20
    requires done.isCompleted
    requires deleted.deletedAt.Some?
    ensures FindFittingTasks([short, long], 15) == [short]
    ensures FindFittingTasks([done, deleted], 15) == []
  {
    LongLeftOut(short, long);
    ClosedLeftOut(done, deleted);
    assert SortTasks([short]) == Insert([], short) == [short];
    assert SortTasks([]) == [];
  }

  lemma LongLeftOut(short: Task, long: Task)
    requires Fits(short, 15) && !Fits(long, 15)
    ensures FilterFitting([short, long], 15) == [short]
  {
    assert [short, long][..1] == [short] && [short][..0] == [];
  }

  lemma ClosedLeftOut(done: Task, deleted: Task)
    requires !Fits(done, 15) && !Fits(deleted, 15)
    ensures FilterFitting([done, deleted], 15) == []
  {
    assert [done, deleted][..1] == [done] && [done][..0] == [];
  }
}
