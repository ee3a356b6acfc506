/**
 * Concrete runs of the operations on small states: what a first day of use
 * produces, step by step.
 */
module Scenarios {
  import opened Wrappers
  import opened Seqs
  import opened Text
  import opened Model
  import opened Streak
  import opened Badges
  import opened Tasks

  /** A title of white space only is ignored: nothing changes and nothing is announced. */
  lemma BlankTitleIsIgnored()
    ensures Added(DefaultState, Draft(" \t\n", "Study", "Medium", "2024-05-01"), 7, 1, "2024-05-01T07:00:00.000Z")
            == Outcome(DefaultState, None)
  {
    assert Trim(" \t\n") == [];
  }

  const Read: Draft := Draft("Read", "Study", "Medium", "2024-05-01")
  const ReadTask: Task := Task(1, "Read", "Study", "Medium", "2024-05-01", false, "2024-05-01T07:00:00.000Z", None)

  /** The state after adding the first task at 7 o'clock. */
  const AfterAdd: State := DefaultState.(tasks := [ReadTask], earlyBird := true,
    usedCategories := ["Study"], uniqueCategories := 1, earnedBadges := ["early_bird"])

  /** "Read" is not blank. */
  lemma ReadIsNotBlank()
    ensures !Blank(Read.title)
  {
    assert !IsSpace(Read.title[0]);
  }

  /** Adding the first task before 8 o'clock hands the badge check the added state with nothing earned yet. */
  lemma AddFirstTaskCopy()
    ensures Adding(DefaultState, Read, 7, 1, "2024-05-01T07:00:00.000Z") == AfterAdd.(earnedBadges := [])
  {
    FirstCategory();
    assert NewTask(Read, 1, "2024-05-01T07:00:00.000Z") == ReadTask;
  }

  /** The first category used is the only one. */
  lemma FirstCategory()
    ensures WithCategory([], "Study") == ["Study"]
  {
    assert NoDup<string>([]);
  }

  /** With nothing earned yet, the added state earns the early bird alone and announces it. */
  lemma CheckFirstTask()
    ensures Checked(AfterAdd.(earnedBadges := [])) == Outcome(AfterAdd, Some(BadgeDefs[7]))
  {
    var s := AfterAdd.(earnedBadges := []);
    assert Hit(BadgeDefs, 7, s);
    assert NoHitBetween(BadgeDefs, s, 12, 12);
    assert !Hit(BadgeDefs, 11, s) && NoHitBetween(BadgeDefs, s, 11, 12);
    assert !Hit(BadgeDefs, 10, s) && NoHitBetween(BadgeDefs, s, 10, 12);
    assert !Hit(BadgeDefs, 9, s) && NoHitBetween(BadgeDefs, s, 9, 12);
    assert !Hit(BadgeDefs, 8, s) && NoHitBetween(BadgeDefs, s, 8, 12);
    assert NoHitBetween(BadgeDefs, s, 7, 7);
    assert !Hit(BadgeDefs, 6, s) && NoHitBetween(BadgeDefs, s, 6, 7);
    assert !Hit(BadgeDefs, 5, s) && NoHitBetween(BadgeDefs, s, 5, 7);
    assert !Hit(BadgeDefs, 4, s) && NoHitBetween(BadgeDefs, s, 4, 7);
    assert !Hit(BadgeDefs, 3, s) && NoHitBetween(BadgeDefs, s, 3, 7);
    assert !Hit(BadgeDefs, 2, s) && NoHitBetween(BadgeDefs, s, 2, 7);
    assert !Hit(BadgeDefs, 1, s) && NoHitBetween(BadgeDefs, s, 1, 7);
    assert !Hit(BadgeDefs, 0, s) && NoHitBetween(BadgeDefs, s, 0, 7);
    CheckedSingleHit(s, 7);
  }

  /** The state after completing the first task at noon. */
  const AfterComplete: State := AfterAdd.(
    tasks := [ReadTask.(done := true, doneAt := Some("2024-05-01T12:00:00.000Z"))],
    totalDone := 1, hadPerfectDay := true,
    streak := 1, longestStreak := 1, lastActiveDate := Some("2024-05-01"),
    history := [HistoryEntry("2024-05-01", 1)])

  /** The copy that completing the first task at noon hands to the badge check. */
  lemma CompleteFirstTask()
    ensures HasTask(AfterAdd.tasks, 1)
    ensures Toggling(AfterAdd, 1, 12, "2024-05-01T12:00:00.000Z", "2024-05-01", "2024-04-30") == AfterComplete
  {
    assert AfterAdd.tasks[0].id == 1;
    var tasks := Flip(AfterAdd.tasks, 1, "2024-05-01T12:00:00.000Z");
    assert tasks == AfterComplete.tasks;
    assert IndexOf(tasks, 1) == 0;
    assert Select(tasks, DueOn("2024-05-01")) == tasks by {
      assert Select(tasks, DueOn("2024-05-01")) == [tasks[0]] + Select(tasks[1..], DueOn("2024-05-01"));
    }
    assert FindDate([], "2024-05-01") == -1;
  }

  /**
   * Completing that task, the only one due today, earns the first step and the
   * perfect day badges at once and announces the perfect day, the later of the
   * two in catalog order.
   */
  lemma FirstCompletionAnnouncesLast()
    ensures var o := Checked(AfterComplete);
      && o.justEarned == Some(BadgeDefs[9])
      && "first_task" in o.updated.earnedBadges && "perfectday" in o.updated.earnedBadges
  {
    var s := AfterComplete;
    assert Hit(BadgeDefs, 9, s);
    assert NoHitBetween(BadgeDefs, s, 12, 12);
    assert !Hit(BadgeDefs, 11, s) && NoHitBetween(BadgeDefs, s, 11, 12);
    assert !Hit(BadgeDefs, 10, s) && NoHitBetween(BadgeDefs, s, 10, 12);
    CheckedAnnouncesLastHit(s, 9);
    assert BadgeDefs[0] in BadgeDefs && Holds(BadgeDefs[0].check, s);
    assert BadgeDefs[9] in BadgeDefs && Holds(BadgeDefs[9].check, s);
  }

  /**
   * The first day: a task added at 7 o'clock earns and announces the early bird;
   * completing it at noon starts the streak at 1 with one history entry, earns
   * the first step and the perfect day, and announces the perfect day.
   */
  lemma FirstDay()
    ensures var a := Added(DefaultState, Read, 7, 1, "2024-05-01T07:00:00.000Z");
      && a == Outcome(AfterAdd, Some(BadgeDefs[7]))
      && HasTask(a.updated.tasks, 1)
      && var o := Toggled(a.updated, 1, 12, "2024-05-01T12:00:00.000Z", "2024-05-01", "2024-04-30");
      && o.justEarned == Some(BadgeDefs[9])
      && o.updated.earnedBadges[..1] == ["early_bird"]
      && "first_task" in o.updated.earnedBadges && "perfectday" in o.updated.earnedBadges
      && o.updated.streak == 1 && o.updated.longestStreak == 1
      && o.updated.history == [HistoryEntry("2024-05-01", 1)]
  {
    ReadIsNotBlank();
    AddFirstTaskCopy();
    CheckFirstTask();
    CompleteFirstTask();
    FirstCompletionAnnouncesLast();
    var o := Checked(AfterComplete);
    assert IsPrefix(AfterComplete.earnedBadges, o.updated.earnedBadges);
  }
}
