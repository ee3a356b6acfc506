/**
 * The task operations: the state transformers that `addTask`,
 * `toggleDone` and `deleteTask` pass to `setState` (streakflow.jsx:128-185).
 * The clock is explicit: `hour` is `new Date().getHours()`, `now` the ISO
 * timestamp, `today` and `yesterday` the ISO dates; `id` is the `Date.now()`
 * value a new task receives.
 */
module Tasks {
  import opened Wrappers
  import opened Seqs
  import opened Text
  import opened Model
  import opened Streak
  import opened Badges
  import opened Views

  /** The add-task form: title, category, priority and due date. */
  datatype Draft = Draft(title: string, category: string, priority: string, due: string)

  /** Whether the title is empty or white space only, which `addTask` ignores. */
  predicate Blank(title: string) {
    Trim(title) == []
  }

  /** The task `addTask` builds from the form: not done, created `now`, no completion time yet. */
  function NewTask(d: Draft, id: int, now: string): (t: Task)
    ensures t.id == id && !t.done && t.createdAt == now && t.doneAt == None
    ensures t.title == d.title && t.category == d.category && t.priority == d.priority && t.due == d.due
  {
    Task(id, d.title, d.category, d.priority, d.due, false, now, None)
  }

  /** The used categories after adding a task of category `c`: `[...new Set([...used, c])]`. */
  function WithCategory(used: seq<string>, c: string): (r: seq<string>)
    ensures NoDup(r)
    ensures forall x :: x in r <==> x in used || x == c
    ensures NoDup(used) ==> r == if c in used then used else used + [c]
  {
    if NoDup(used) then DedupAppend(used, c); Dedup(used + [c]) else Dedup(used + [c])
  }

  /**
   * The outcome of `addTask`. A blank title changes nothing. Otherwise exactly one
   * not-done task is appended, the early-bird latch is set before 8 o'clock, the
   * new category joins the used categories and their count follows, and then the
   * badge check runs; the counters and the streak fields are left alone.
   */
  function Added(prev: State, d: Draft, hour: int, id: int, now: string): (o: Outcome)
    ensures Blank(d.title) ==> o == Outcome(prev, None)
    ensures !Blank(d.title) ==>
      && o.updated.tasks == prev.tasks + [NewTask(d, id, now)]
      && o.updated.earlyBird == (prev.earlyBird || hour < 8)
      && o.updated.usedCategories == WithCategory(prev.usedCategories, d.category)
      && o.updated.uniqueCategories == |o.updated.usedCategories|
      && o.updated.totalDone == prev.totalDone
      && o.updated.highPrioDone == prev.highPrioDone
      && o.updated.nightOwl == prev.nightOwl
      && o.updated.hadPerfectDay == prev.hadPerfectDay
      && o.updated.streak == prev.streak
      && o.updated.longestStreak == prev.longestStreak
      && o.updated.lastActiveDate == prev.lastActiveDate
      && o.updated.history == prev.history
      && o == Checked(o.updated.(earnedBadges := prev.earnedBadges))
  {
    if Blank(d.title) then Outcome(prev, None) else Checked(Adding(prev, d, hour, id, now))
  }

  /** The copy that `addTask` hands to the badge check. */
  function Adding(prev: State, d: Draft, hour: int, id: int, now: string): State {
    var used := WithCategory(prev.usedCategories, d.category);
    prev.(tasks := prev.tasks + [NewTask(d, id, now)],
          earlyBird := prev.earlyBird || hour < 8,
          usedCategories := used,
          uniqueCategories := |used|)
  }

  /** `addTask`, setting the fields of the fresh copy one after the other as streakflow.jsx:128-146 does. */
  method AddTask(prev: State, d: Draft, hour: int, id: int, now: string) returns (o: Outcome)
    ensures o == Added(prev, d, hour, id, now)
  {
    if Blank(d.title) {
      return Outcome(prev, None);
    }
    var task := Task(id, d.title, d.category, d.priority, d.due, false, now, None);
    var s := prev.(tasks := prev.tasks + [task]);
    if hour < 8 {
      s := s.(earlyBird := true);
    }
    var cats := Dedup(s.usedCategories + [task.category]);
    s := s.(uniqueCategories := |cats|);
    s := s.(usedCategories := cats);
    o := CheckBadges(s);
  }

  /** One task under the `tasks.map` of `toggleDone`: the matching one flips, with its completion time. */
  function FlipOne(t: Task, id: int, now: string): Task {
    if t.id == id then t.(done := !t.done, doneAt := if !t.done then Some(now) else None) else t
  }

  /**
   * The task list after toggling `id`: every task with that id flips its done
   * flag and gets `doneAt` set (completing) or cleared (un-completing); every other
   * task and the order stay as they were.
   */
  function Flip(ts: seq<Task>, id: int, now: string): (r: seq<Task>)
    ensures |r| == |ts|
    ensures forall i :: 0 <= i < |ts| ==> r[i].id == ts[i].id
    ensures forall i :: 0 <= i < |ts| && ts[i].id != id ==> r[i] == ts[i]
    ensures forall i :: 0 <= i < |ts| && ts[i].id == id ==>
      && r[i].done == !ts[i].done
      && r[i].doneAt == (if r[i].done then Some(now) else None)
      && r[i] == ts[i].(done := r[i].done, doneAt := r[i].doneAt)
  {
    seq(|ts|, i requires 0 <= i < |ts| => FlipOne(ts[i], id, now))
  }

  /** `ts.findIndex((t) => t.id === id)`; `find` returns the task at this index. */
  function IndexOf(ts: seq<Task>, id: int): (i: int)
    ensures -1 <= i < |ts|
    ensures i == -1 <==> !HasTask(ts, id)
    ensures 0 <= i ==> ts[i].id == id && forall k :: 0 <= k < i ==> ts[k].id != id
  {
    if ts == [] then -1
    else if ts[0].id == id then 0
    else
      var j := IndexOf(ts[1..], id);
      assert HasTask(ts[1..], id) ==> HasTask(ts, id) by {
        if HasTask(ts[1..], id) {
          var k :| 0 <= k < |ts[1..]| && ts[1..][k].id == id;
          assert ts[k + 1].id == id;
        }
      }
      assert HasTask(ts, id) ==> HasTask(ts[1..], id) by {
        if HasTask(ts, id) {
          var k :| 0 <= k < |ts| && ts[k].id == id;
          assert ts[1..][k - 1].id == id;
        }
      }
      if j == -1 then -1 else j + 1
  }

  /** The task that `toggleDone` acts on, as it was before the toggle. */
  function Target(ts: seq<Task>, id: int): (t: Task)
    requires HasTask(ts, id)
    ensures t in ts && t.id == id
  {
    ts[IndexOf(ts, id)]
  }

  /** Whether every task due today is done and there is at least one: the perfect-day test. */
  predicate PerfectDay(ts: seq<Task>, today: string) {
    |TodayTasks(ts, today)| > 0 && AllDone(TodayTasks(ts, today))
  }

  /** The fields a completion sets on the copy, before the streak update (streakflow.jsx:162-169). */
  function Completing(s: State, task: Task, hour: int, today: string): State {
    s.(totalDone := s.totalDone + 1,
       nightOwl := s.nightOwl || hour >= 22,
       highPrioDone := if task.priority == "High" then s.highPrioDone + 1 else s.highPrioDone,
       hadPerfectDay := s.hadPerfectDay || PerfectDay(s.tasks, today))
  }

  /** The fields an un-completion sets on the copy (streakflow.jsx:174-175). */
  function Uncompleting(s: State, task: Task): State {
    s.(totalDone := Max(0, s.totalDone - 1),
       highPrioDone := if task.priority == "High" then Max(0, s.highPrioDone - 1) else s.highPrioDone)
  }

  /**
   * The outcome of `toggleDone(id)`: the flipped task list, then the completion or
   * un-completion bookkeeping (with the streak update on a completion), then the
   * badge check. The lemmas below state what each branch does.
   */
  function Toggled(prev: State, id: int, hour: int, now: string, today: string, yesterday: string): (o: Outcome)
    requires HasTask(prev.tasks, id)
    ensures o.updated.tasks == Flip(prev.tasks, id, now)
    ensures o == Checked(o.updated.(earnedBadges := prev.earnedBadges))
  {
    var s := Toggling(prev, id, hour, now, today, yesterday);
    var o := Checked(s);
    assert o.updated.(earnedBadges := prev.earnedBadges) == s;
    o
  }

  /** The copy that `toggleDone` hands to the badge check: the flipped tasks, the earned list as it was. */
  function Toggling(prev: State, id: int, hour: int, now: string, today: string, yesterday: string): (r: State)
    requires HasTask(prev.tasks, id)
    ensures r.tasks == Flip(prev.tasks, id, now) && r.earnedBadges == prev.earnedBadges
  {
    var tasks := Flip(prev.tasks, id, now);
    IndexOfSameIds(prev.tasks, tasks, id);
    var task := tasks[IndexOf(tasks, id)];
    var s := prev.(tasks := tasks);
    if task.done then StreakAfter(Completing(s, task, hour, today), true, today, yesterday)
    else Uncompleting(s, task)
  }

  /**
   * Completing a task counts it, counts a high-priority completion, latches the
   * night owl at 22 o'clock or later and the perfect day when every task due today
   * is done, and credits the day to the streak; early bird and categories stay.
   */
  lemma ToggleCompletes(prev: State, id: int, hour: int, now: string, today: string, yesterday: string)
    requires HasTask(prev.tasks, id) && !Target(prev.tasks, id).done
    ensures var o := Toggled(prev, id, hour, now, today, yesterday);
            var was := Target(prev.tasks, id);
            var s := o.updated;
            var streaked := StreakAfter(prev, true, today, yesterday);
      && s.totalDone == prev.totalDone + 1
      && s.highPrioDone == prev.highPrioDone + (if was.priority == "High" then 1 else 0)
      && s.nightOwl == (prev.nightOwl || hour >= 22)
      && s.hadPerfectDay == (prev.hadPerfectDay || PerfectDay(Flip(prev.tasks, id, now), today))
      && s.streak == streaked.streak && s.longestStreak == streaked.longestStreak
      && s.lastActiveDate == streaked.lastActiveDate && s.history == streaked.history
      && s.earlyBird == prev.earlyBird
      && s.usedCategories == prev.usedCategories && s.uniqueCategories == prev.uniqueCategories
  {
    var tasks := Flip(prev.tasks, id, now);
    IndexOfSameIds(prev.tasks, tasks, id);
    var k := IndexOf(prev.tasks, id);
    assert tasks[k].done;
    var c := Completing(prev.(tasks := tasks), tasks[k], hour, today);
    assert tasks[k].priority == prev.tasks[k].priority;
    StreakReadsOnlyStreakFields(c, prev, today, yesterday);
  }

  /**
   * Un-completing a task takes its counts back, never below 0, and leaves the
   * streak, the history, the latches and the categories as they were.
   */
  lemma ToggleUncompletes(prev: State, id: int, hour: int, now: string, today: string, yesterday: string)
    requires HasTask(prev.tasks, id) && Target(prev.tasks, id).done
    ensures var o := Toggled(prev, id, hour, now, today, yesterday);
            var was := Target(prev.tasks, id);
            var s := o.updated;
      && s.totalDone == Max(0, prev.totalDone - 1)
      && s.highPrioDone == (if was.priority == "High" then Max(0, prev.highPrioDone - 1) else prev.highPrioDone)
      && s.nightOwl == prev.nightOwl && s.hadPerfectDay == prev.hadPerfectDay && s.earlyBird == prev.earlyBird
      && s.streak == prev.streak && s.longestStreak == prev.longestStreak
      && s.lastActiveDate == prev.lastActiveDate && s.history == prev.history
      && s.usedCategories == prev.usedCategories && s.uniqueCategories == prev.uniqueCategories
  {
    var tasks := Flip(prev.tasks, id, now);
    IndexOfSameIds(prev.tasks, tasks, id);
    var k := IndexOf(prev.tasks, id);
    assert !tasks[k].done;
    assert tasks[k].priority == prev.tasks[k].priority;
  }

  /** The streak update reads only the streak fields, the last active date and the history. */
  lemma StreakReadsOnlyStreakFields(a: State, b: State, today: string, yesterday: string)
    requires a.streak == b.streak && a.longestStreak == b.longestStreak
    requires a.lastActiveDate == b.lastActiveDate && a.history == b.history
    ensures var ra, rb := StreakAfter(a, true, today, yesterday), StreakAfter(b, true, today, yesterday);
      && ra.streak == rb.streak && ra.longestStreak == rb.longestStreak
      && ra.lastActiveDate == rb.lastActiveDate && ra.history == rb.history
      && ra == a.(streak := ra.streak, longestStreak := ra.longestStreak,
                  lastActiveDate := ra.lastActiveDate, history := ra.history)
  {
  }

  /** IndexOf depends only on the ids. */
  lemma {:induction false} IndexOfSameIds(a: seq<Task>, b: seq<Task>, id: int)
    requires |a| == |b| && forall i :: 0 <= i < |a| ==> a[i].id == b[i].id
    ensures IndexOf(a, id) == IndexOf(b, id)
  {
    if a != [] {
      IndexOfSameIds(a[1..], b[1..], id);
    }
  }

  /** The completing branch of `toggleDone` up to the streak update, field by field (streakflow.jsx:162-169). */
  method MarkCompleted(s: State, task: Task, hour: int, today: string) returns (r: State)
    ensures r == Completing(s, task, hour, today)
  {
    r := s.(totalDone := s.totalDone + 1);
    if hour >= 22 {
      r := r.(nightOwl := true);
    }
    if task.priority == "High" {
      r := r.(highPrioDone := r.highPrioDone + 1);
    }
    var todayTasks := TodayTasks(r.tasks, today);
    if |todayTasks| > 0 && AllDone(todayTasks) {
      r := r.(hadPerfectDay := true);
    }
  }

  /** The un-completing branch of `toggleDone`, field by field (streakflow.jsx:174-175). */
  method MarkUncompleted(s: State, task: Task) returns (r: State)
    ensures r == Uncompleting(s, task)
  {
    r := s.(totalDone := Max(0, s.totalDone - 1));
    if task.priority == "High" {
      r := r.(highPrioDone := Max(0, r.highPrioDone - 1));
    }
  }

  /** `toggleDone`, as streakflow.jsx:152-181 runs it on a fresh copy of the state. */
  method ToggleDone(prev: State, id: int, hour: int, now: string, today: string, yesterday: string) returns (o: Outcome)
    requires HasTask(prev.tasks, id)
    ensures o == Toggled(prev, id, hour, now, today, yesterday)
  {
    var tasks := Flip(prev.tasks, id, now);
    IndexOfSameIds(prev.tasks, tasks, id);
    var task := tasks[IndexOf(tasks, id)];
    var s := prev.(tasks := tasks);
    if task.done {
      s := MarkCompleted(s, task, hour, today);
      s := UpdateStreak(s, true, today, yesterday);
    } else {
      s := MarkUncompleted(s, task);
    }
    o := CheckBadges(s);
  }

  /**
   * `deleteTask(id)`: the tasks with that id are gone, every other task stays in
   * its order, and no other field changes, not even the counters a deleted done or
   * high-priority task contributed to.
   */
  function DeleteTask(prev: State, id: int): (r: State)
    ensures forall t :: t in r.tasks <==> t in prev.tasks && t.id != id
    ensures !HasTask(r.tasks, id)
    ensures |r.tasks| == |prev.tasks| - Count(prev.tasks, WithId(id))
    ensures r == prev.(tasks := r.tasks)
  {
    var rest := Select(prev.tasks, NotId(id));
    SelectSplits(prev.tasks, id);
    prev.(tasks := rest)
  }

  /** Each task either has the id or not: the two filters split the list. */
  lemma {:induction false} SelectSplits(ts: seq<Task>, id: int)
    ensures Count(ts, WithId(id)) + Count(ts, NotId(id)) == |ts|
  {
    if ts != [] {
      SelectSplits(ts[1..], id);
    }
  }

  /** Deleting distributes over a split of the list: the survivors keep their relative order. */
  lemma DeleteKeepsOrder(prev: State, a: seq<Task>, b: seq<Task>, id: int)
    requires prev.tasks == a + b
    ensures DeleteTask(prev, id).tasks == Select(a, NotId(id)) + Select(b, NotId(id))
  {
    SelectConcat(a, b, NotId(id));
  }
}
