/**
 * What the three task operations keep true together, from the state of a
 * first start onwards: the counters against the task list, the streak
 * watermark, the history, the earned badges and the used categories.
 */
module Lockstep {
  import opened Wrappers
  import opened Seqs
  import opened Model
  import opened Streak
  import opened Badges
  import opened Tasks

  /** The counters equal what the task list shows: the done tasks, and the done high-priority ones. */
  predicate CountersMatch(s: State) {
    s.totalDone == Count(s.tasks, IsDone) && s.highPrioDone == Count(s.tasks, DoneHigh)
  }

  /** The counters are at least what the task list shows (deleting a done task keeps its count). */
  predicate Covers(s: State) {
    s.totalDone >= Count(s.tasks, IsDone) && s.highPrioDone >= Count(s.tasks, DoneHigh)
  }

  /** Every catalog badge whose check holds is already earned. */
  predicate BadgesClosed(s: State) {
    forall b :: b in BadgeDefs && Holds(b.check, s) ==> b.id in s.earnedBadges
  }

  /** The earned list has no repeats and names catalog badges only. */
  predicate BadgesSound(s: State) {
    NoDup(s.earnedBadges) && forall id :: id in s.earnedBadges ==> id in CatalogIds()
  }

  /** The invariants that do not involve the badges. */
  predicate Shape(s: State) {
    && 0 <= s.streak <= s.longestStreak
    && DatesUnique(s.history)
    && (s.lastActiveDate.Some? ==> FindDate(s.history, s.lastActiveDate.value) != -1)
    && NoDup(s.usedCategories)
    && s.uniqueCategories == |s.usedCategories|
    && (forall t :: t in s.tasks ==> t.category in s.usedCategories)
    && UniqueIds(s.tasks)
  }

  predicate WellFormed(s: State) {
    Shape(s) && BadgesSound(s) && BadgesClosed(s)
  }

  /** The state of a first start has every invariant, the lockstep included. */
  lemma DefaultWellFormed()
    ensures WellFormed(DefaultState) && CountersMatch(DefaultState)
  {
    assert forall b :: b in BadgeDefs ==> !Holds(b.check, DefaultState);
  }

  /** The badge check changes only the earned list, so it keeps the shape. */
  lemma CheckedShape(s: State)
    requires Shape(s)
    ensures Shape(Checked(s).updated)
  {
    var o := Checked(s);
    assert o.updated == s.(earnedBadges := o.updated.earnedBadges);
  }

  /** After the badge check every catalog badge that holds is earned. */
  lemma CheckedClosed(s: State)
    ensures BadgesClosed(Checked(s).updated)
  {
    var o := Checked(s);
    forall b | b in BadgeDefs && Holds(b.check, o.updated) ensures b.id in o.updated.earnedBadges {
      HoldsIgnoresEarned(b.check, s, o.updated.earnedBadges);
    }
  }

  /** The badge check appends catalog ids that were not yet earned. */
  lemma CheckedSound(s: State)
    requires BadgesSound(s)
    ensures BadgesSound(Checked(s).updated)
  {
    var e := Checked(s).updated.earnedBadges;
    var n := |s.earnedBadges|;
    forall id | id in e[n..] ensures id in CatalogIds() {
      var b :| b in BadgeDefs && b.id == id && id !in s.earnedBadges && Holds(b.check, s);
      InIds(BadgeDefs, b);
    }
    GrowWithin(s.earnedBadges, e, CatalogIds());
  }

  /** The id of a listed badge is among the listed ids. */
  lemma InIds(bs: seq<Badge>, b: Badge)
    requires b in bs
    ensures b.id in Ids(bs)
  {
    var j :| 0 <= j < |bs| && bs[j] == b;
    assert Ids(bs)[j] == b.id;
  }

  /** A list that extends `prior` by members of `within` stays within it when `prior` does. */
  lemma GrowWithin(prior: seq<string>, e: seq<string>, within: seq<string>)
    requires IsPrefix(prior, e)
    requires forall id :: id in prior ==> id in within
    requires forall id :: id in e[|prior|..] ==> id in within
    ensures forall id :: id in e ==> id in within
  {
    forall id | id in e ensures id in within {
      var k :| 0 <= k < |e| && e[k] == id;
      if k >= |prior| {
        assert e[|prior|..][k - |prior|] == id;
      } else {
        assert prior[k] == id;
      }
    }
  }

  /** The badge check makes the badges closed and keeps them sound, and changes nothing else. */
  lemma CheckedWellFormed(s: State)
    requires Shape(s) && BadgesSound(s)
    ensures WellFormed(Checked(s).updated)
  {
    CheckedShape(s);
    CheckedClosed(s);
    CheckedSound(s);
  }

  /** Filtering keeps the ids apart. */
  lemma {:induction false} SelectUniqueIds(ts: seq<Task>, f: TaskFilter)
    requires UniqueIds(ts)
    ensures UniqueIds(Select(ts, f))
  {
    if ts != [] {
      var tail := ts[1..];
      assert UniqueIds(tail) by {
        forall i, j | 0 <= i < j < |tail| ensures tail[i].id != tail[j].id {
          assert tail[i] == ts[i + 1] && tail[j] == ts[j + 1];
        }
      }
      SelectUniqueIds(tail, f);
      var rest := Select(tail, f);
      forall t | t in rest ensures t.id != ts[0].id {
        var i :| 0 <= i < |tail| && tail[i] == t;
        assert ts[i + 1] == t;
      }
      var r := Select(ts, f);
      if Matches(f, ts[0]) {
        assert r == [ts[0]] + rest;
        forall i, j | 0 <= i < j < |r| ensures r[i].id != r[j].id {
          if i == 0 {
            assert r[j] == rest[j - 1] && rest[j - 1] in rest;
          } else {
            assert r[i] == rest[i - 1] && r[j] == rest[j - 1];
          }
        }
      } else {
        assert r == rest;
      }
    }
  }

  /** All ids are below the bound. */
  predicate IdsBelow(ts: seq<Task>, n: int) {
    forall t :: t in ts ==> t.id < n
  }

  /** The badge check touches neither the tasks nor the counters. */
  lemma CheckedKeepsCounters(s: State)
    ensures CountersMatch(s) ==> CountersMatch(Checked(s).updated)
    ensures Covers(s) ==> Covers(Checked(s).updated)
    ensures Checked(s).updated.tasks == s.tasks
  {
    var o := Checked(s);
    assert o.updated == s.(earnedBadges := o.updated.earnedBadges);
  }

  // ---- addTask ----

  /** Appending a task whose id is new keeps the ids apart. */
  lemma AppendUniqueIds(ts: seq<Task>, t: Task)
    requires UniqueIds(ts) && !HasTask(ts, t.id)
    ensures UniqueIds(ts + [t])
  {
    var r := ts + [t];
    forall i, j | 0 <= i < j < |r| ensures r[i].id != r[j].id {
      assert r[i] == ts[i];
      if j < |ts| {
        assert r[j] == ts[j];
      }
    }
  }

  /** Appending a task that is not done changes neither count. */
  lemma AppendNotDone(ts: seq<Task>, t: Task)
    requires !t.done
    ensures Count(ts + [t], IsDone) == Count(ts, IsDone)
    ensures Count(ts + [t], DoneHigh) == Count(ts, DoneHigh)
  {
    SelectConcat(ts, [t], IsDone);
    SelectConcat(ts, [t], DoneHigh);
    assert Select([t], IsDone) == Select([t][1..], IsDone);
    assert Select([t], DoneHigh) == Select([t][1..], DoneHigh);
  }

  /** The copy `addTask` builds keeps the shape when the id is new, and the counters still match. */
  lemma AddingShape(prev: State, d: Draft, hour: int, id: int, now: string)
    requires Shape(prev) && BadgesSound(prev) && !HasTask(prev.tasks, id)
    ensures var s := Adding(prev, d, hour, id, now);
      && Shape(s) && BadgesSound(s)
      && (CountersMatch(prev) ==> CountersMatch(s))
      && (Covers(prev) ==> Covers(s))
  {
    var t := NewTask(d, id, now);
    AppendUniqueIds(prev.tasks, t);
    AppendNotDone(prev.tasks, t);
    assert forall x :: x in prev.tasks + [t] ==> x in prev.tasks || x == t;
  }

  /** Adding a task with an id not yet in use keeps every invariant, the lockstep and the cover. */
  lemma AddedWellFormed(prev: State, d: Draft, hour: int, id: int, now: string)
    requires WellFormed(prev) && !HasTask(prev.tasks, id)
    ensures var r := Added(prev, d, hour, id, now).updated;
      WellFormed(r) && (CountersMatch(prev) ==> CountersMatch(r)) && (Covers(prev) ==> Covers(r))
  {
    if !Blank(d.title) {
      var s := Adding(prev, d, hour, id, now);
      AddingShape(prev, d, hour, id, now);
      CheckedWellFormed(s);
      CheckedKeepsCounters(s);
    }
  }

  /** Adding keeps the ids below a bound that exceeds the new id. */
  lemma AddedIdsBelow(prev: State, d: Draft, hour: int, id: int, now: string, n: int)
    requires IdsBelow(prev.tasks, n) && n <= id
    ensures IdsBelow(Added(prev, d, hour, id, now).updated.tasks, id + 1)
  {
    if !Blank(d.title) {
      CheckedKeepsCounters(Adding(prev, d, hour, id, now));
    }
  }

  // ---- toggleDone ----

  /** With distinct ids, the toggle rewrites exactly the position of `id`. */
  lemma FlipOnlyAt(ts: seq<Task>, id: int, now: string)
    requires UniqueIds(ts) && HasTask(ts, id)
    ensures var k, r := IndexOf(ts, id), Flip(ts, id, now);
      forall i :: 0 <= i < |ts| && i != k ==> r[i] == ts[i]
  {
    var k := IndexOf(ts, id);
    forall i | 0 <= i < |ts| && i != k ensures ts[i].id != id {
    }
  }

  /** The flipped list keeps the ids and the categories of the tasks. */
  lemma FlipShape(prev: State, id: int, now: string)
    requires Shape(prev)
    ensures var tasks := Flip(prev.tasks, id, now);
      UniqueIds(tasks) && forall t :: t in tasks ==> t.category in prev.usedCategories
  {
    var tasks := Flip(prev.tasks, id, now);
    forall i, j | 0 <= i < j < |tasks| ensures tasks[i].id != tasks[j].id {
      assert tasks[i].id == prev.tasks[i].id && tasks[j].id == prev.tasks[j].id;
    }
    forall t | t in tasks ensures t.category in prev.usedCategories {
      var i :| 0 <= i < |tasks| && tasks[i] == t;
      assert prev.tasks[i] in prev.tasks;
    }
  }

  /** The copy `toggleDone` builds keeps the shape. */
  lemma TogglingShape(prev: State, id: int, hour: int, now: string, today: string, yesterday: string)
    requires Shape(prev) && BadgesSound(prev) && HasTask(prev.tasks, id)
    ensures var s := Toggling(prev, id, hour, now, today, yesterday);
      Shape(s) && BadgesSound(s) && s.tasks == Flip(prev.tasks, id, now)
  {
    var tasks := Flip(prev.tasks, id, now);
    IndexOfSameIds(prev.tasks, tasks, id);
    var task := tasks[IndexOf(tasks, id)];
    var s := prev.(tasks := tasks);
    FlipShape(prev, id, now);
    if task.done {
      LastActiveHasEntry(Completing(s, task, hour, today), true, today, yesterday);
    }
  }

  /** With distinct ids, the toggle moves each count by what the one flipped task contributes. */
  lemma FlipCounts(ts: seq<Task>, id: int, now: string)
    requires UniqueIds(ts) && HasTask(ts, id)
    ensures var was, r := Target(ts, id), Flip(ts, id, now);
      && Count(r, IsDone) == Count(ts, IsDone) + (if was.done then -1 else 1)
      && Count(r, DoneHigh) == Count(ts, DoneHigh) + (if was.priority != "High" then 0 else if was.done then -1 else 1)
  {
    var k := IndexOf(ts, id);
    var r := Flip(ts, id, now);
    assert r[k].done == !ts[k].done && r[k].priority == ts[k].priority;
    FlipOnlyAt(ts, id, now);
    SelectPointChange(ts, r, k, IsDone);
    SelectPointChange(ts, r, k, DoneHigh);
  }

  /** The copy `toggleDone` builds changes the counters exactly as the flipped task's counts change. */
  lemma TogglingCounters(prev: State, id: int, hour: int, now: string, today: string, yesterday: string)
    requires UniqueIds(prev.tasks) && HasTask(prev.tasks, id)
    ensures var s := Toggling(prev, id, hour, now, today, yesterday);
      && (CountersMatch(prev) ==> CountersMatch(s))
      && (Covers(prev) ==> Covers(s))
  {
    var tasks := Flip(prev.tasks, id, now);
    IndexOfSameIds(prev.tasks, tasks, id);
    var k := IndexOf(prev.tasks, id);
    var task := tasks[k];
    assert task.priority == prev.tasks[k].priority && task.done == !prev.tasks[k].done;
    FlipCounts(prev.tasks, id, now);
    var s := Toggling(prev, id, hour, now, today, yesterday);
    if task.done {
      var c := Completing(prev.(tasks := tasks), task, hour, today);
      assert s == StreakAfter(c, true, today, yesterday);
      assert s.totalDone == c.totalDone && s.highPrioDone == c.highPrioDone && s.tasks == tasks;
    } else {
      assert s == Uncompleting(prev.(tasks := tasks), task);
    }
  }

  /** The toggle keeps every invariant; completing and un-completing keep the lockstep and the cover. */
  lemma ToggledWellFormed(prev: State, id: int, hour: int, now: string, today: string, yesterday: string)
    requires WellFormed(prev) && HasTask(prev.tasks, id)
    ensures var r := Toggled(prev, id, hour, now, today, yesterday).updated;
      WellFormed(r) && (CountersMatch(prev) ==> CountersMatch(r)) && (Covers(prev) ==> Covers(r))
  {
    var s := Toggling(prev, id, hour, now, today, yesterday);
    TogglingShape(prev, id, hour, now, today, yesterday);
    TogglingCounters(prev, id, hour, now, today, yesterday);
    CheckedWellFormed(s);
    CheckedKeepsCounters(s);
  }

  /** Un-completing only lowers counters, so every check that holds after it held before. */
  lemma UncompletingHoldsBefore(prev: State, id: int, hour: int, now: string, today: string, yesterday: string, c: Check)
    requires HasTask(prev.tasks, id) && Target(prev.tasks, id).done
    requires prev.totalDone >= 0 && prev.highPrioDone >= 0
    requires Holds(c, Toggling(prev, id, hour, now, today, yesterday))
    ensures Holds(c, prev)
  {
    var tasks := Flip(prev.tasks, id, now);
    IndexOfSameIds(prev.tasks, tasks, id);
    var k := IndexOf(prev.tasks, id);
    assert !tasks[k].done;
  }

  /** Under closed badges, un-completing a task earns and announces nothing. */
  lemma UncompleteEarnsNothing(prev: State, id: int, hour: int, now: string, today: string, yesterday: string)
    requires BadgesClosed(prev) && HasTask(prev.tasks, id) && Target(prev.tasks, id).done
    requires prev.totalDone >= 0 && prev.highPrioDone >= 0
    ensures var o := Toggled(prev, id, hour, now, today, yesterday);
      o.justEarned == None && o.updated.earnedBadges == prev.earnedBadges
  {
    var s := Toggling(prev, id, hour, now, today, yesterday);
    assert s.earnedBadges == prev.earnedBadges by {
      var tasks := Flip(prev.tasks, id, now);
      IndexOfSameIds(prev.tasks, tasks, id);
      assert !tasks[IndexOf(prev.tasks, id)].done;
    }
    var u := Unlocked(BadgeDefs, s);
    UnlockedMembers(BadgeDefs, s);
    if u != [] {
      assert u[0] in u;
      UncompletingHoldsBefore(prev, id, hour, now, today, yesterday, u[0].check);
      assert false;
    }
  }

  /** Flipping leaves the ids as they were. */
  lemma FlipIdsBelow(ts: seq<Task>, id: int, now: string, n: int)
    requires IdsBelow(ts, n)
    ensures IdsBelow(Flip(ts, id, now), n)
  {
    var r := Flip(ts, id, now);
    forall t | t in r ensures t.id < n {
      var i :| 0 <= i < |r| && r[i] == t;
      assert ts[i] in ts;
    }
  }

  /** The toggle leaves the ids as they were. */
  lemma ToggledIdsBelow(prev: State, id: int, hour: int, now: string, today: string, yesterday: string, n: int)
    requires IdsBelow(prev.tasks, n) && HasTask(prev.tasks, id)
    ensures IdsBelow(Toggled(prev, id, hour, now, today, yesterday).updated.tasks, n)
  {
    FlipIdsBelow(prev.tasks, id, now, n);
  }

  // ---- deleteTask ----

  /**
   * Deleting keeps every invariant and the cover, but not the lockstep: the
   * counters keep what a deleted done task contributed.
   */
  lemma DeletedWellFormed(prev: State, id: int)
    requires WellFormed(prev)
    ensures WellFormed(DeleteTask(prev, id))
    ensures Covers(prev) ==> Covers(DeleteTask(prev, id))
  {
    var r := DeleteTask(prev, id);
    SelectUniqueIds(prev.tasks, NotId(id));
    assert r.tasks == Select(prev.tasks, NotId(id));
    forall b | b in BadgeDefs && Holds(b.check, r) ensures b.id in r.earnedBadges {
      assert Holds(b.check, prev);
    }
    SelectAfterSelect(prev.tasks, id, IsDone);
    SelectAfterSelect(prev.tasks, id, DoneHigh);
  }

  /** Filtering after deleting keeps no more tasks than filtering alone. */
  lemma {:induction false} SelectAfterSelect(ts: seq<Task>, id: int, f: TaskFilter)
    ensures |Select(Select(ts, NotId(id)), f)| <= |Select(ts, f)|
  {
    if ts != [] {
      SelectAfterSelect(ts[1..], id, f);
      var rest := Select(ts[1..], NotId(id));
      if ts[0].id != id {
        assert Select(ts, NotId(id)) == [ts[0]] + rest;
        SelectConcat([ts[0]], rest, f);
      } else {
        assert Select(ts, NotId(id)) == rest;
      }
    }
  }

  /** A concrete state in lockstep that deleting its one done task takes out of lockstep. */
  lemma DeleteBreaksLockstep()
    ensures var t := Task(1, "Read", "Study", "Medium", "2024-05-01", true, "2024-05-01T08:00:00.000Z", Some("2024-05-01T09:00:00.000Z"));
            var s := DefaultState.(tasks := [t], totalDone := 1);
      && CountersMatch(s) && !CountersMatch(DeleteTask(s, 1)) && DeleteTask(s, 1).totalDone == 1
  {
    var t := Task(1, "Read", "Study", "Medium", "2024-05-01", true, "2024-05-01T08:00:00.000Z", Some("2024-05-01T09:00:00.000Z"));
    var s := DefaultState.(tasks := [t], totalDone := 1);
    assert Select([t], IsDone) == [t] + Select([t][1..], IsDone);
    assert Select([t], DoneHigh) == Select([t][1..], DoneHigh);
    assert Select([t], NotId(1)) == Select([t][1..], NotId(1));
  }

  // ---- sequences of operations ----

  /** One user action with the clock readings it sees. */
  datatype Op =
    | Add(draft: Draft, hour: int, id: int, now: string)
    | Toggle(tid: int, thour: int, tnow: string, today: string, yesterday: string)
    | Delete(did: int)

  /** One action on the state; toggling an id that is not there throws, which is `None`. */
  function Step(s: State, op: Op): (r: Option<State>)
    ensures r.None? <==> op.Toggle? && !HasTask(s.tasks, op.tid)
  {
    match op
    case Add(d, hour, id, now) => Some(Added(s, d, hour, id, now).updated)
    case Toggle(id, hour, now, today, yesterday) =>
      if HasTask(s.tasks, id) then Some(Toggled(s, id, hour, now, today, yesterday).updated) else None
    case Delete(id) => Some(DeleteTask(s, id))
  }

  /** The actions one after the other, stopping at the first that throws. */
  function Run(s: State, ops: seq<Op>): Option<State>
    decreases |ops|
  {
    if ops == [] then Some(s)
    else match Step(s, ops[0])
      case None => None
      case Some(s') => Run(s', ops[1..])
  }

  /** The new ids of the adds are at least `n` and increase, as `Date.now()` readings do. */
  predicate FreshIds(ops: seq<Op>, n: int)
    decreases |ops|
  {
    ops == [] ||
    if ops[0].Add? then ops[0].id >= n && FreshIds(ops[1..], ops[0].id + 1)
    else FreshIds(ops[1..], n)
  }

  predicate NoDelete(ops: seq<Op>) {
    forall k :: 0 <= k < |ops| ==> !ops[k].Delete?
  }

  /** One action keeps the invariants, the cover, the id bound, and without a delete the lockstep. */
  lemma StepKeeps(s: State, op: Op, n: int)
    requires WellFormed(s) && Covers(s) && IdsBelow(s.tasks, n)
    requires op.Add? ==> op.id >= n
    ensures var r := Step(s, op);
      r.Some? ==>
      && WellFormed(r.value) && Covers(r.value)
      && IdsBelow(r.value.tasks, if op.Add? then op.id + 1 else n)
      && (CountersMatch(s) && !op.Delete? ==> CountersMatch(r.value))
  {
    match op
    case Add(d, hour, id, now) =>
      assert !HasTask(s.tasks, id);
      AddedWellFormed(s, d, hour, id, now);
      AddedIdsBelow(s, d, hour, id, now, n);
    case Toggle(id, hour, now, today, yesterday) =>
      if HasTask(s.tasks, id) {
        ToggledWellFormed(s, id, hour, now, today, yesterday);
        ToggledIdsBelow(s, id, hour, now, today, yesterday, n);
      }
    case Delete(id) =>
      DeletedWellFormed(s, id);
  }

  /**
   * From a well-formed state whose counters cover the task list, any run whose
   * new ids are fresh keeps every invariant and the cover; a run without deletes
   * also keeps the lockstep.
   */
  lemma {:induction false} RunKeeps(s: State, ops: seq<Op>, n: int)
    requires WellFormed(s) && Covers(s) && IdsBelow(s.tasks, n) && FreshIds(ops, n)
    ensures var r := Run(s, ops);
      r.Some? ==> WellFormed(r.value) && Covers(r.value) && (CountersMatch(s) && NoDelete(ops) ==> CountersMatch(r.value))
    decreases |ops|
  {
    if ops != [] {
      StepKeeps(s, ops[0], n);
      var r := Step(s, ops[0]);
      if r.Some? {
        var n' := if ops[0].Add? then ops[0].id + 1 else n;
        assert NoDelete(ops) ==> NoDelete(ops[1..]) && !ops[0].Delete? by {
          if NoDelete(ops) {
            forall k | 0 <= k < |ops[1..]| ensures !ops[1..][k].Delete? {
              assert ops[1..][k] == ops[k + 1];
            }
          }
        }
        RunKeeps(r.value, ops[1..], n');
      }
    }
  }

  /** From a first start, a run with fresh ids and no delete keeps the counters in lockstep with the tasks. */
  lemma LockstepFromDefault(ops: seq<Op>, n: int)
    requires FreshIds(ops, n) && NoDelete(ops)
    ensures var r := Run(DefaultState, ops);
      r.Some? ==> WellFormed(r.value) && CountersMatch(r.value)
  {
    DefaultWellFormed();
    RunKeeps(DefaultState, ops, n);
  }

  /** One action only appends to the earned list. */
  lemma StepEarnedGrows(s: State, op: Op)
    ensures var r := Step(s, op);
      r.Some? ==> IsPrefix(s.earnedBadges, r.value.earnedBadges)
  {
    match op
    case Add(d, hour, id, now) =>
      if !Blank(d.title) {
        var a := Adding(s, d, hour, id, now);
        assert a.earnedBadges == s.earnedBadges;
        assert IsPrefix(a.earnedBadges, Checked(a).updated.earnedBadges);
      }
    case Toggle(id, hour, now, today, yesterday) =>
      if HasTask(s.tasks, id) {
        var a := Toggling(s, id, hour, now, today, yesterday);
        assert a.earnedBadges == s.earnedBadges by {
          var tasks := Flip(s.tasks, id, now);
          IndexOfSameIds(s.tasks, tasks, id);
          var task := tasks[IndexOf(tasks, id)];
          if task.done {
            var c := Completing(s.(tasks := tasks), task, hour, today);
            assert a == StreakAfter(c, true, today, yesterday);
          }
        }
        assert IsPrefix(a.earnedBadges, Checked(a).updated.earnedBadges);
      }
    case Delete(id) =>
  }

  /** Earned badges are never taken back: along any run, the earned list only grows at its end. */
  lemma {:induction false} EarnedOnlyGrows(s: State, ops: seq<Op>)
    ensures var r := Run(s, ops);
      r.Some? ==> IsPrefix(s.earnedBadges, r.value.earnedBadges)
    decreases |ops|
  {
    if ops != [] {
      var r := Step(s, ops[0]);
      if r.Some? {
        StepEarnedGrows(s, ops[0]);
        EarnedOnlyGrows(r.value, ops[1..]);
        assert Run(s, ops) == Run(r.value, ops[1..]);
        if Run(s, ops).Some? {
          PrefixTransitive(s.earnedBadges, r.value.earnedBadges, Run(s, ops).value.earnedBadges);
        }
      }
    }
  }

  lemma PrefixTransitive(a: seq<string>, b: seq<string>, c: seq<string>)
    requires IsPrefix(a, b) && IsPrefix(b, c)
    ensures IsPrefix(a, c)
  {
    assert c[..|a|] == b[..|a|];
  }
}
