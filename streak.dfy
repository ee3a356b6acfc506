/**
 * The streak engine, `updateStreak` (streakflow.jsx:90-112): credits at most
 * one day per calendar date, extends the streak when the last credited day was
 * yesterday, keeps the longest-streak watermark and upserts the day's history
 * entry. The clock is explicit: `today` and `yesterday` are the ISO dates the
 * source reads from `new Date()`.
 */
module Streak {
  import opened Wrappers
  import opened Model

  /** `hist.findIndex((h) => h.date === date)`: the first entry for `date`, or -1. */
  function FindDate(hist: seq<HistoryEntry>, date: string): (i: int)
    ensures -1 <= i < |hist|
    ensures i == -1 <==> forall k :: 0 <= k < |hist| ==> hist[k].date != date
    ensures 0 <= i ==> hist[i].date == date && forall k :: 0 <= k < i ==> hist[k].date != date
  {
    if hist == [] then -1
    else if hist[0].date == date then 0
    else
      var j := FindDate(hist[1..], date);
      if j == -1 then -1 else j + 1
  }

  /** The result of FindDate depends only on the dates of the entries. */
  lemma FindDateSameDates(a: seq<HistoryEntry>, b: seq<HistoryEntry>, date: string)
    requires |a| == |b| && forall k :: 0 <= k < |a| ==> a[k].date == b[k].date
    ensures FindDate(a, date) == FindDate(b, date)
  {
  }

  /** At most one history entry per calendar date. */
  predicate DatesUnique(hist: seq<HistoryEntry>) {
    forall i, j :: 0 <= i < j < |hist| ==> hist[i].date != hist[j].date
  }

  /** The completions recorded for `date`: the count of its entry, 0 if it has none. */
  function CountOn(hist: seq<HistoryEntry>, date: string): int {
    var i := FindDate(hist, date);
    if i == -1 then 0 else hist[i].count
  }

  /**
   * The history after crediting `date` (streakflow.jsx:106-109): a new entry with
   * count 1 at the end when there is none for `date`, otherwise that entry's count
   * plus one. Every other entry keeps its place, date and count.
   */
  function Upsert(hist: seq<HistoryEntry>, date: string): (r: seq<HistoryEntry>)
    ensures |r| == |hist| + (if FindDate(hist, date) == -1 then 1 else 0)
    ensures forall k :: 0 <= k < |hist| ==> r[k].date == hist[k].date
    ensures forall k :: 0 <= k < |hist| && hist[k].date != date ==> r[k] == hist[k]
    ensures FindDate(hist, date) == -1 ==> r[|hist|] == HistoryEntry(date, 1)
    ensures CountOn(r, date) == CountOn(hist, date) + 1
    ensures forall d :: d != date ==> CountOn(r, d) == CountOn(hist, d)
    ensures DatesUnique(hist) ==> DatesUnique(r)
  {
    var idx := FindDate(hist, date);
    if idx == -1 then
      var r := hist + [HistoryEntry(date, 1)];
      assert forall d :: d != date ==> FindDate(r, d) == FindDate(hist, d) by {
        forall d | d != date ensures FindDate(r, d) == FindDate(hist, d) {
          FindAppended(hist, HistoryEntry(date, 1), d);
        }
      }
      FindAppended(hist, HistoryEntry(date, 1), date);
      r
    else
      var r := hist[idx := hist[idx].(count := hist[idx].count + 1)];
      assert forall d :: FindDate(r, d) == FindDate(hist, d) by {
        forall d ensures FindDate(r, d) == FindDate(hist, d) {
          FindDateSameDates(r, hist, d);
        }
      }
      r
  }

  /** Appending an entry leaves every earlier match where it was. */
  lemma {:induction false} FindAppended(hist: seq<HistoryEntry>, e: HistoryEntry, d: string)
    ensures FindDate(hist + [e], d) ==
      if FindDate(hist, d) != -1 then FindDate(hist, d) else if e.date == d then |hist| else -1
  {
    if hist != [] {
      assert (hist + [e])[1..] == hist[1..] + [e];
      FindAppended(hist[1..], e, d);
    }
  }

  /** Whether a completion credits a new day: one happened, and `today` is not already the last credited date. */
  predicate Credits(s: State, completedToday: bool, today: string) {
    completedToday && s.lastActiveDate != Some(today)
  }

  /** The streak after crediting today: one more when the last credited day was yesterday, otherwise a fresh streak of 1. */
  function NextStreak(s: State, yesterday: string): int {
    if s.lastActiveDate == Some(yesterday) then s.streak + 1 else 1
  }

  /**
   * `updateStreak(s, completedToday)` as a value. Nothing changes unless the
   * completion credits a new day; otherwise only the streak, the watermark, the
   * last active date and the history change.
   */
  function StreakAfter(s: State, completedToday: bool, today: string, yesterday: string): (r: State)
    ensures !Credits(s, completedToday, today) ==> r == s
    ensures Credits(s, completedToday, today) ==>
      && r.streak == NextStreak(s, yesterday)
      && r.longestStreak == Max(s.longestStreak, r.streak)
      && r.lastActiveDate == Some(today)
      && r.history == Upsert(s.history, today)
    ensures r == s.(streak := r.streak, longestStreak := r.longestStreak,
                    lastActiveDate := r.lastActiveDate, history := r.history)
    ensures r.longestStreak >= s.longestStreak
    ensures 0 <= s.streak <= s.longestStreak ==> 0 <= r.streak <= r.longestStreak
    ensures DatesUnique(s.history) ==> DatesUnique(r.history)
  {
    if !Credits(s, completedToday, today) then s
    else
      var streak := NextStreak(s, yesterday);
      s.(streak := streak, longestStreak := Max(s.longestStreak, streak),
         lastActiveDate := Some(today), history := Upsert(s.history, today))
  }

  /** `updateStreak`, step by step as streakflow.jsx:90-112 does it. */
  method UpdateStreak(s: State, completedToday: bool, today: string, yesterday: string) returns (r: State)
    ensures r == StreakAfter(s, completedToday, today, yesterday)
  {
    var streak, longestStreak, lastActiveDate, history := s.streak, s.longestStreak, s.lastActiveDate, s.history;
    if !completedToday {
      return s;
    }
    if lastActiveDate == Some(today) {
      return s;
    }
    streak := if lastActiveDate == Some(yesterday) then streak + 1 else 1;
    longestStreak := Max(longestStreak, streak);
    lastActiveDate := Some(today);

    var hist := history;
    var idx := FindDate(hist, today);
    if idx == -1 {
      hist := hist + [HistoryEntry(today, 1)];
    } else {
      hist := hist[idx := hist[idx].(count := hist[idx].count + 1)];
    }
    return s.(streak := streak, longestStreak := longestStreak, lastActiveDate := lastActiveDate, history := hist);
  }

  /** A second completion on the same day changes nothing: neither the streak nor the history. */
  lemma SameDayIsIdempotent(s: State, today: string, yesterday: string, yesterday': string)
    ensures var once := StreakAfter(s, true, today, yesterday);
            StreakAfter(once, true, today, yesterday') == once
  {
  }

  /**
   * The history counts stay at 1: crediting a day keeps every count at 1 unless
   * the history already holds `today` while the last credited date is another
   * one (which a clock that never goes back cannot produce).
   */
  lemma CountsStayOne(s: State, completedToday: bool, today: string, yesterday: string)
    requires forall k :: 0 <= k < |s.history| ==> s.history[k].count == 1
    requires FindDate(s.history, today) == -1 || s.lastActiveDate == Some(today)
    ensures var r := StreakAfter(s, completedToday, today, yesterday);
            forall k :: 0 <= k < |r.history| ==> r.history[k].count == 1
  {
  }

  /** The `count += 1` branch: today already has an entry but is not the last credited date. */
  lemma CountGrowsOnlyOnStaleDate(s: State, today: string, yesterday: string)
    requires Credits(s, true, today)
    requires FindDate(s.history, today) != -1
    ensures var r := StreakAfter(s, true, today, yesterday);
            |r.history| == |s.history| && CountOn(r.history, today) == CountOn(s.history, today) + 1
  {
  }

  /** The last credited date always has a history entry, and crediting keeps it so. */
  lemma LastActiveHasEntry(s: State, completedToday: bool, today: string, yesterday: string)
    requires s.lastActiveDate.Some? ==> FindDate(s.history, s.lastActiveDate.value) != -1
    ensures var r := StreakAfter(s, completedToday, today, yesterday);
            r.lastActiveDate.Some? ==> FindDate(r.history, r.lastActiveDate.value) != -1
  {
    var r := StreakAfter(s, completedToday, today, yesterday);
    if Credits(s, completedToday, today) {
      assert CountOn(r.history, today) == CountOn(s.history, today) + 1;
    }
  }
}
