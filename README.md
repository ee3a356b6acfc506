# StreakFlow (RitsuNiti) task tracker: the state-transition core

The tracker in `streakflow.jsx` is a single React component. It keeps one state
record. The record holds the tasks, the completion counters, a daily streak with
its longest-streak watermark, the per-day history, the latches behind the
early-bird, night-owl and perfect-day badges, the used categories, and the ids of
the badges earned so far. Every user action hands `setState` a function from the
old record to a new one. This project models those functions and the helpers they
call:

- `updateStreak` (module `Streak`);
- `checkBadges` with its twelve-entry catalog `BADGE_DEFS` (module `Badges`);
- the transformers of `addTask`, `toggleDone` and `deleteTask` (module `Tasks`);
- the catalog look-ups `catOf` / `prioOf` and the first-start state
  `DEFAULT_STATE` (module `Model`);
- the queries the interface renders from the state: today's tasks, the category
  filter, progress, the overdue mark and the category breakdown (module `Views`).

The model treats the record as a value. The source rebuilds it on every action
(`{ ...prev, … }`). Its one update in place, the history entry that
`updateStreak` shares with the previous record, is listed under "Left out". Each operation is a specification function,
and the code that builds the record field by field is a method proved equal to
that function: `UpdateStreak`, the `CheckBadges` loop, `AddTask`, `ToggleDone`
and its two branch methods. Module `Lockstep` proves what the three actions keep
true together over any run that starts from `DEFAULT_STATE`. Module `Scenarios`
evaluates a concrete first day of use.

Two behaviours of the code are easy to misread:

- **A day's history count stays at 1 while the clock never goes back.** A second
  completion on the same day returns at the "already counted today" early exit
  (streakflow.jsx:95), before the history is touched (`Streak.SameDayIsIdempotent`).
  The `count += 1` branch (streakflow.jsx:108-109) runs only when today already has
  an entry but is not the last credited day (`Streak.CountGrowsOnlyOnStaleDate`).
  That happens only on a clock set back to an earlier credited day.
  `Streak.CountsStayOne` states the one-step version: counts at 1 stay at 1 unless
  that is the case. The model does not prove this along a whole run.
- **The announced badge is the last one earned.** When one check earns several
  badges, `justEarned` is overwritten on each of them (streakflow.jsx:121), so the
  badge announced is the last new one in catalog order
  (`Badges.AnnouncedIsLastHit`, `Scenarios.FirstCompletionAnnouncesLast`).

The clock is a parameter. `today`, `yesterday`, the hour of day, the ISO timestamp
`now` and the `Date.now()` id of a new task are arguments of the operations.
The source reads each of them from `new Date()`.

## Model

| member | source | states |
|---|---|---|
| Model.CatOf | streakflow.jsx:36 | the result is a catalog category; a known label gives its own entry, an unknown label gives "Other" (`CATS[4]`) |
| Model.PrioOf | streakflow.jsx:37 | the result is a catalog priority; a known name gives its own entry, an unknown name gives "Medium" (`PRIOS[1]`) |
| Model.DefaultState | streakflow.jsx:40-54 | no tasks, zero counters and streaks, no last active date, no badges, latches off, no categories, empty history. `Lockstep.DefaultWellFormed` proves it satisfies every invariant |
| Model.Cats | streakflow.jsx:22-28 | the five categories, with "Other" at index 4 as the `catOf` fallback; `Views.CatalogNamesDistinct` proves their labels distinct |
| Model.Prios | streakflow.jsx:30-34 | the three priorities, with "Medium" at index 1 as the `prioOf` fallback |
| Model.FindCategory | streakflow.jsx:36 | `find` gives an entry with that label, and gives none exactly when no entry has that label |
| Model.FindPriority | streakflow.jsx:37 | `find` gives an entry with that name, and gives none exactly when no entry has that name |
| Model.Select | streakflow.jsx:193-195 | `filter` keeps exactly the tasks that match; its result is no longer than its input |
| Model.SelectConcat | streakflow.jsx:185 | filtering a concatenation is the concatenation of the filtered parts, so order is kept |
| Model.SelectKeepsAll | streakflow.jsx:169 | the filter keeps every task exactly when every task matches (`every`) |
| Model.SelectPointChange | streakflow.jsx:154-156 | replacing one task changes a filter count only by what the old and the new task contribute |
| Model.SelectMonotone | streakflow.jsx:534-535 | a stronger condition keeps no more tasks |
| Seqs.Dedup | streakflow.jsx:140 | `[...new Set(xs)]` has no repeats and the same members as `xs` |
| Seqs.DedupAppend | streakflow.jsx:140 | adding a category to a duplicate-free list leaves it unchanged when the category is present, and appends it otherwise |
| Text.Trim | streakflow.jsx:129 | `trim()` is empty exactly when every character is ECMAScript white space; otherwise it starts and ends with a non-space |
| Text.TrimStart | streakflow.jsx:129 | the result is a suffix of the input, and what was dropped is white space |
| Text.TrimEnd | streakflow.jsx:129 | the result is a prefix of the input, and what was dropped is white space |
| Text.Less | streakflow.jsx:561 | JavaScript's string `<`, lexicographic with a proper prefix smaller. `Text.LessIrreflexive`, `Text.LessTransitive` and `Text.LessTrichotomy` prove it a strict total order, and `Text.IsoDateOrder` proves it is date order on ISO dates |
| Text.LessIrreflexive | streakflow.jsx:561 | no string is `<` itself |
| Text.LessTransitive | streakflow.jsx:561 | string `<` is transitive |
| Text.LessTrichotomy | streakflow.jsx:561 | two strings are equal or ordered one way, and never both ways |
| Text.LessConcat | streakflow.jsx:561 | strings with equal-length first parts compare by those parts first, then by the rest |
| Text.DigitsOrder | streakflow.jsx:561 | on digit strings of one length, string order is numeric order |
| Text.IsoDateOrder | streakflow.jsx:561 | on `YYYY-MM-DD` dates, string `<` means an earlier calendar day (`YYYYMMDD` as a number) |
| Streak.FindDate | streakflow.jsx:107 | `findIndex` gives -1 exactly when no entry has the date, and otherwise the first entry with it |
| Streak.Upsert | streakflow.jsx:106-109 | a missing date is appended with count 1; a present one has its count raised by 1; other entries keep their place and count; dates stay unique |
| Streak.StreakAfter | streakflow.jsx:90-112 | no completion, or today already credited: the state is unchanged. Otherwise the streak is +1 after yesterday and 1 otherwise, `longestStreak` is the maximum, `lastActiveDate` is today and the history is upserted; no other field changes and the watermark never drops |
| Streak.UpdateStreak | streakflow.jsx:90-112 | the step-by-step updater computes `StreakAfter` |
| Streak.SameDayIsIdempotent | streakflow.jsx:95 | a second completion on the same day changes nothing, whatever `yesterday` it sees |
| Streak.CountsStayOne | streakflow.jsx:95-109 | when every count is 1 and today has no entry unless it was the last credited day, every count stays 1 |
| Streak.CountGrowsOnlyOnStaleDate | streakflow.jsx:108 | when today already has an entry but was not the last credited day, crediting raises its count by 1 and adds no entry |
| Streak.LastActiveHasEntry | streakflow.jsx:102-109 | the last credited date keeps a history entry |
| Badges.Holds | streakflow.jsx:8-19 | each badge condition is its catalog `check` closure, written as data |
| Badges.CatalogIdsDistinct | streakflow.jsx:7-20 | the twelve catalog ids are pairwise distinct |
| Badges.HoldsIgnoresEarned | streakflow.jsx:8-19 | no check reads the earned list |
| Badges.UnlockedMembers | streakflow.jsx:117-118 | the scan picks exactly the catalog badges not yet earned whose check holds |
| Badges.UnlockedDistinct | streakflow.jsx:118-119 | over distinct catalog ids, the ids the scan picks are distinct |
| Badges.UnlockedIds | streakflow.jsx:117-119 | an id is newly pushed exactly when some catalog entry with it is unearned and holds |
| Badges.UnlockedStep | streakflow.jsx:118 | `earned.includes(b.id)` during the loop agrees with the earned list as it was before the loop |
| Badges.Checked | streakflow.jsx:115-125 | the old earned list is a prefix; the appended ids are exactly the unearned catalog badges that hold, are distinct, and keep the list duplicate-free; every badge that holds ends up earned; the announcement is absent exactly when nothing was added and otherwise is the last id added; only `earnedBadges` changes |
| Badges.ScanFacts | streakflow.jsx:115-125 | the same facts for a scan over any catalog with distinct ids |
| Badges.ScanStep | streakflow.jsx:117-122 | one turn of the loop extends the earned list and `justEarned` exactly as scanning one more entry does |
| Badges.Unlocked | streakflow.jsx:117-122 | the badges the scan pushes, in catalog order: no more than the catalog holds. `UnlockedMembers` states exactly which ones, and `UnlockedDistinct` that their ids are distinct |
| Badges.BadgeDefs | streakflow.jsx:7-20 | the twelve catalog entries with their ids, texts and checks, in scan order; `CatalogIdsDistinct` proves their ids distinct |
| Badges.CheckBadges | streakflow.jsx:115-125 | the loop over the catalog computes `Checked` |
| Badges.AnnouncedIsLastHit | streakflow.jsx:118-121 | when entry j is unlocked and no later entry is, the scan announces entry j |
| Badges.CheckedAnnouncesLastHit | streakflow.jsx:121 | `checkBadges` announces the catalog entry unlocked last |
| Badges.UnlockedSkip | streakflow.jsx:118 | entries that are not unlocked add nothing to the scan |
| Badges.UnlockedSingle | streakflow.jsx:117-122 | when only entry j is unlocked, the scan unlocks it alone |
| Badges.CheckedSingleHit | streakflow.jsx:115-125 | when only entry j is unlocked, the check appends its id alone and announces it |
| Badges.CheckTwiceAddsNothing | streakflow.jsx:115-125 | checking the result a second time earns and announces nothing |
| Tasks.NewTask | streakflow.jsx:131-136 | the new task carries the form's fields and the given id and creation time; it is not done and has no completion time |
| Tasks.WithCategory | streakflow.jsx:140 | the used categories gain the task's category: no repeats, the old members plus the new one, and unchanged when it was already there |
| Tasks.Blank | streakflow.jsx:129 | `!title.trim()`: by the `Text.Trim` contract, blank exactly when every character is white space (`Scenarios.BlankTitleIsIgnored`, `Scenarios.ReadIsNotBlank`) |
| Tasks.Adding | streakflow.jsx:137-142 | the copy `addTask` hands to the check; `Tasks.Added` states each of its fields, and `Lockstep.AddingShape` that it keeps the invariants |
| Tasks.Added | streakflow.jsx:128-146 | a blank title changes nothing and announces nothing. Otherwise: exactly the new task is appended; early bird is latched before 8; the categories and their count follow; the counters and streak fields are kept; then the badge check runs |
| Tasks.AddTask | streakflow.jsx:128-146 | the field-by-field transformer computes `Added` |
| Tasks.Flip | streakflow.jsx:154-156 | same length and ids; the task with the id flips `done` and gets `doneAt` set (completing) or cleared; every other task is unchanged |
| Tasks.IndexOf | streakflow.jsx:157 | -1 exactly when no task has the id, otherwise the first task with it |
| Tasks.Target | streakflow.jsx:157 | the task `find` returns has the id and is in the list |
| Tasks.Toggled | streakflow.jsx:152-181 | the result's tasks are the flipped list, and the result is the badge check of the copy with the old earned list |
| Tasks.Toggling | streakflow.jsx:153-176 | the copy handed to the badge check has the flipped tasks and the old earned list |
| Tasks.PerfectDay | streakflow.jsx:168-169 | at least one task is due today and all of them are done. `Views.DoneTodayCount` ties this to the done count |
| Tasks.Completing | streakflow.jsx:162-169 | the fields the completing branch sets before the streak update; `Tasks.ToggleCompletes` states each of them and `Tasks.MarkCompleted` is proved equal to it |
| Tasks.Uncompleting | streakflow.jsx:174-175 | the floored decrements of the un-completing branch; `Tasks.ToggleUncompletes` states them and `Tasks.MarkUncompleted` is proved equal to it |
| Tasks.ToggleCompletes | streakflow.jsx:160-171 | completing: `totalDone` +1; `highPrioDone` +1 for a High task; night owl at 22 or later; perfect day when every task due today is done; the streak update credits today; early bird and categories are kept |
| Tasks.ToggleUncompletes | streakflow.jsx:172-176 | un-completing: the counts go back by one, never below 0; streak, history, latches and categories are kept |
| Tasks.StreakReadsOnlyStreakFields | streakflow.jsx:90-112 | the streak update depends only on the streak fields, the last active date and the history |
| Tasks.MarkCompleted | streakflow.jsx:162-169 | the completing branch, set field by field, computes `Completing` |
| Tasks.MarkUncompleted | streakflow.jsx:173-175 | the un-completing branch, set field by field, computes `Uncompleting` |
| Tasks.ToggleDone | streakflow.jsx:152-181 | the transformer computes `Toggled` |
| Tasks.DeleteTask | streakflow.jsx:185 | exactly the tasks with the id are removed; the count drops by the number of them; no other field changes |
| Tasks.SelectSplits | streakflow.jsx:185 | the tasks with the id and the tasks without it add up to the whole list |
| Tasks.DeleteKeepsOrder | streakflow.jsx:185 | deleting keeps the survivors in their relative order |
| Views.TodayTasks | streakflow.jsx:193 | exactly the tasks due today |
| Views.FilteredTasks | streakflow.jsx:194 | "All" shows every task; any other filter shows exactly the tasks of that category |
| Views.DoneTodayCount | streakflow.jsx:195 | at most the number of today's tasks, and equal to it exactly when all of them are done |
| Views.RoundedPercent | streakflow.jsx:196 | between 0 and 100; the integer nearest 100·part/whole (halves rounded up); 100 when everything is done and 0 when nothing is |
| Views.RoundingBounds | streakflow.jsx:196 | the rounding formula brackets 200·part between (2r−1)·whole and (2r+1)·whole |
| Views.QuotientRange | streakflow.jsx:196 | a bracketed quotient lies in 0..100 and is 100 or 0 exactly at the ends |
| Views.Progress | streakflow.jsx:196 | today's progress is in 0..100; 0 with no tasks due today; 100 when every task due today is done |
| Views.Overdue | streakflow.jsx:561 | `isOverdue`: not done and due before today in string order; `Views.OverdueMeansEarlier` characterizes it on ISO dates |
| Views.OverdueMeansEarlier | streakflow.jsx:561 | a done task, or one due today, is never overdue; on ISO dates overdue means not done and due on an earlier day |
| Views.CategoryTotal | streakflow.jsx:534 | the number of tasks with that category label; `Views.BreakdownCoversAll` sums it over the catalog, and `Views.CategoryDone` bounds the done count by it |
| Views.CategoryDone | streakflow.jsx:535 | a category has no more done tasks than tasks |
| Views.CategoryPercent | streakflow.jsx:536 | a category's bar is in 0..100; 0 when the category is empty; 100 when all its tasks are done |
| Views.TotalOverFirst | streakflow.jsx:533-534 | a task adds to the breakdown once for every catalog entry with its label |
| Views.BreakdownCoversAll | streakflow.jsx:533-534 | when every task has a catalog label, the category totals add up to the number of tasks |
| Views.HitsOnce | streakflow.jsx:533-534 | among distinct labels, a present label is counted exactly once |
| Lockstep.DefaultWellFormed | streakflow.jsx:40-54 | the first-start state satisfies every invariant, counters matching the task list included |
| Lockstep.CheckedWellFormed | streakflow.jsx:115-125 | after the badge check, every badge that holds is earned; the earned list stays duplicate-free and within the catalog |
| Lockstep.CheckedClosed | streakflow.jsx:115-125 | after the badge check, every catalog badge whose check holds is earned |
| Lockstep.CheckedSound | streakflow.jsx:115-125 | the badge check keeps the earned list duplicate-free and within the catalog |
| Lockstep.CheckedShape | streakflow.jsx:115-125 | the badge check keeps the streak, history, category and id invariants |
| Lockstep.CheckedKeepsCounters | streakflow.jsx:124 | the badge check touches neither the tasks nor the counters |
| Lockstep.SelectUniqueIds | streakflow.jsx:185 | filtering keeps the task ids distinct |
| Lockstep.AppendUniqueIds | streakflow.jsx:138 | appending a task with a new id keeps the ids distinct |
| Lockstep.AppendNotDone | streakflow.jsx:134-138 | appending a not-done task changes neither done count |
| Lockstep.AddingShape | streakflow.jsx:137-142 | with a new id, the copy built by `addTask` keeps the invariants and the counters still match |
| Lockstep.AddedWellFormed | streakflow.jsx:128-146 | with a new id, adding keeps every invariant, the counter match and the cover |
| Lockstep.AddedIdsBelow | streakflow.jsx:132 | after adding, every id is below the new id plus one |
| Lockstep.FlipOnlyAt | streakflow.jsx:154-156 | with distinct ids, the toggle rewrites exactly one position |
| Lockstep.FlipShape | streakflow.jsx:154-156 | the flipped list keeps the ids distinct and every category among the used ones |
| Lockstep.FlipCounts | streakflow.jsx:154-156 | with distinct ids, each done count moves by exactly what the flipped task contributes |
| Lockstep.FlipIdsBelow | streakflow.jsx:154-156 | the toggle leaves every id below the same bound |
| Lockstep.TogglingShape | streakflow.jsx:153-176 | the copy built by `toggleDone` keeps the invariants |
| Lockstep.TogglingCounters | streakflow.jsx:160-176 | on that copy, each counter moves exactly as the flipped task's done counts move |
| Lockstep.ToggledWellFormed | streakflow.jsx:152-181 | toggling keeps every invariant, the counter match and the cover |
| Lockstep.ToggledIdsBelow | streakflow.jsx:152-181 | toggling keeps every id below the same bound |
| Lockstep.UncompletingHoldsBefore | streakflow.jsx:172-176 | un-completing only lowers counters, so any check true afterwards was true before |
| Lockstep.UncompleteEarnsNothing | streakflow.jsx:172-181 | when every badge that holds is already earned, un-completing earns and announces nothing |
| Lockstep.DeletedWellFormed | streakflow.jsx:185 | deleting keeps every invariant and the cover |
| Lockstep.SelectAfterSelect | streakflow.jsx:185 | filtering after a delete keeps no more tasks than filtering alone |
| Lockstep.DeleteBreaksLockstep | streakflow.jsx:185 | a concrete state whose counters match its task list stops matching when its one done task is deleted, since `totalDone` is kept |
| Lockstep.Step | streakflow.jsx:128-185 | one action fails exactly when it toggles an id that is not there (`task` is undefined at :160) |
| Lockstep.StepKeeps | streakflow.jsx:128-185 | one action with a fresh id keeps every invariant, the cover and the id bound; without a delete it also keeps the counters matching the task list |
| Lockstep.RunKeeps | streakflow.jsx:128-185 | any run with increasing fresh ids keeps every invariant and the cover; with no delete in it, the counters also keep matching the task list |
| Lockstep.LockstepFromDefault | streakflow.jsx:40-54 | from a first start, a run with fresh ids and no delete keeps `totalDone` and `highPrioDone` equal to the counts the task list shows |
| Lockstep.StepEarnedGrows | streakflow.jsx:115-125 | one action only appends to the earned list |
| Lockstep.EarnedOnlyGrows | streakflow.jsx:115-125 | along any run the old earned list stays a prefix: earned badges are never taken back |
| Scenarios.BlankTitleIsIgnored | streakflow.jsx:129 | a white-space title changes nothing and announces nothing |
| Scenarios.AddFirstTaskCopy | streakflow.jsx:137-142 | adding "Read" at 7 o'clock to the first-start state builds the expected copy |
| Scenarios.CheckFirstTask | streakflow.jsx:115-125 | on that copy the check earns and announces the early bird alone |
| Scenarios.CompleteFirstTask | streakflow.jsx:152-176 | completing it at noon builds the expected copy: streak 1 and one history entry |
| Scenarios.FirstCompletionAnnouncesLast | streakflow.jsx:118-121 | that completion earns the first step and the perfect day, and announces the perfect day, the later one in the catalog |
| Scenarios.FirstDay | streakflow.jsx:128-181 | the whole first day: the early bird is announced on add; then the completion gives streak 1, longest 1, one history entry, and announces the perfect day |

## Left out

- Rendering, tabs, forms, animations and the badge pop-up timers (100, 3000 and 3500 ms after an action) are user interface. The model returns the badge to announce and stops there.
- Persistence (`loadState` / `saveState` through `window.storage`, the JSON round trip and the `saving` flag) is I/O. A failed load gives `DEFAULT_STATE`, which is modelled.
- The clock is a parameter: `today`, `yesterday`, the hour, the ISO timestamps and the `Date.now()` id. The caller supplies `yesterday`. The model does not check that it is the calendar day before `today`.
- `fmt` (locale date formatting) is presentation and is not part of this model.
- Views.RoundedPercent: computes `Math.round(done / total * 100)` in exact rational arithmetic with halves rounded up. It does not model the binary floating-point product, so a ratio whose product lands just below a half may round differently.
- Text.Less: compares Unicode code points. JavaScript compares UTF-16 code units, and the two orders differ only above U+FFFF. Dates and ids are ASCII.
- The `|| 0` and `|| []` fallbacks for fields missing from an older stored record are not modelled. Every record here has all thirteen fields.
- A task's `doneAt` is missing until the first completion and `null` after an un-completion. Both are `None`.
- `updateStreak` copies the history array but not its entries, so `hist[idx].count += 1` also changes the previous record's entry object. The model treats records as values and does not capture that aliasing (update in place of a shared entry). The branch is reached only on a clock set back to an earlier credited day (`Streak.CountGrowsOnlyOnStaleDate`).
- Tasks.ToggleDone: requires the id to be present. The source throws a TypeError on `task.done` otherwise; `Lockstep.Step` models that as `None`.
- Lockstep.RunKeeps: assumes the ids of added tasks are increasing, as successive `Date.now()` readings are. Two adds in the same millisecond would share an id, and the source would then toggle or delete both.
- Streak.CountsStayOne: a one-step statement. The model does not prove that a run with a clock that never goes back keeps every history count at 1.
- Lockstep.UncompleteEarnsNothing: requires nonnegative counters. From `DEFAULT_STATE` they always are.
- Scenarios.FirstCompletionAnnouncesLast: states that the two badges are in the earned list and which one is announced, not the exact list.
- Lockstep.LockstepFromDefault: excludes deletes. `deleteTask` keeps the counters, so after a deleted done task they only cover the task list (`Lockstep.DeleteBreaksLockstep`, `Lockstep.DeletedWellFormed`).
