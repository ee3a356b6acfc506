/**
 * The badge engine: the twelve-entry catalog BADGE_DEFS (streakflow.jsx:7-20)
 * and `checkBadges` (streakflow.jsx:115-125), which scans the catalog in
 * order, appends the id of every badge that is not yet earned and whose check
 * holds on the input state, and reports the LAST such badge.
 */
module Badges {
  import opened Wrappers
  import opened Seqs
  import opened Model

  /** The condition of a badge: the `check` closure of its catalog entry, as data. */
  datatype Check =
    | TotalDoneAtLeast(n: int)
    | StreakAtLeast(n: int)
    | EarlyBirdSet
    | NightOwlSet
    | PerfectDaySet
    | CategoriesAtLeast(n: int)
    | HighPrioAtLeast(n: int)

  datatype Badge = Badge(id: string, icon: string, name: string, desc: string, check: Check)

  predicate Holds(c: Check, s: State) {
    match c
    case TotalDoneAtLeast(n) => s.totalDone >= n
    case StreakAtLeast(n) => s.streak >= n
    case EarlyBirdSet => s.earlyBird
    case NightOwlSet => s.nightOwl
    case PerfectDaySet => s.hadPerfectDay
    case CategoriesAtLeast(n) => s.uniqueCategories >= n
    case HighPrioAtLeast(n) => s.highPrioDone >= n
  }

  /** The catalog, in the order the check scans it. */
  const BadgeDefs: seq<Badge> := [
    Badge("first_task", "\U{1F331}", "First Step", "Complete your very first task", TotalDoneAtLeast(1)),
    Badge("five_tasks", "\U{26A1}", "Getting Warmed Up", "Complete 5 tasks total", TotalDoneAtLeast(5)),
    Badge("ten_tasks", "\U{1F525}", "On Fire", "Complete 10 tasks total", TotalDoneAtLeast(10)),
    Badge("fifty_tasks", "\U{1F48E}", "Diamond Grinder", "Complete 50 tasks total", TotalDoneAtLeast(50)),
    Badge("streak3", "\U{1F4C5}", "3-Day Warrior", "Maintain a 3-day streak", StreakAtLeast(3)),
    Badge("streak7", "\U{1F31F}", "Week Champion", "Maintain a 7-day streak", StreakAtLeast(7)),
    Badge("streak30", "\U{1F451}", "Streak Royalty", "Maintain a 30-day streak", StreakAtLeast(30)),
    Badge("early_bird", "\U{1F305}", "Early Bird", "Add a task before 8 AM", EarlyBirdSet),
    Badge("night_owl", "\U{1F989}", "Night Owl", "Complete a task after 10 PM", NightOwlSet),
    Badge("perfectday", "\U{2728}", "Perfect Day", "Complete all tasks in a day", PerfectDaySet),
    Badge("multitag", "\U{1F3AF}", "Multi-Tasker", "Use 3 different categories", CategoriesAtLeast(3)),
    Badge("highprio", "\U{1F680}", "Priority Pro", "Complete 5 high-priority tasks", HighPrioAtLeast(5))
  ]

  /** The ids of some badges, in order. */
  function Ids(bs: seq<Badge>): (r: seq<string>)
    ensures |r| == |bs| && forall i :: 0 <= i < |bs| ==> r[i] == bs[i].id
  {
    seq(|bs|, i requires 0 <= i < |bs| => bs[i].id)
  }

  lemma IdsConcat(a: seq<Badge>, b: seq<Badge>)
    ensures Ids(a + b) == Ids(a) + Ids(b)
  {
  }

  predicate DistinctIds(bs: seq<Badge>) {
    forall i, j :: 0 <= i < j < |bs| ==> bs[i].id != bs[j].id
  }

  /** The ids of the whole catalog. */
  function CatalogIds(): seq<string> {
    Ids(BadgeDefs)
  }

  /** No two catalog entries share an id. */
  lemma CatalogIdsDistinct()
    ensures NoDup(CatalogIds()) && DistinctIds(BadgeDefs)
  {
    CatalogEntriesDistinct();
    DistinctIdsNoDup(BadgeDefs);
  }

  lemma CatalogEntriesDistinct()
    ensures DistinctIds(BadgeDefs)
  {
  }

  lemma DistinctIdsNoDup(bs: seq<Badge>)
    requires DistinctIds(bs)
    ensures NoDup(Ids(bs))
  {
  }

  /** The badges of `defs`, in order, that are not yet earned in `s` and whose check holds on `s`. */
  function Unlocked(defs: seq<Badge>, s: State): (r: seq<Badge>)
    ensures |r| <= |defs|
  {
    if defs == [] then []
    else
      var init, b := defs[..|defs| - 1], defs[|defs| - 1];
      Unlocked(init, s) + (if b.id !in s.earnedBadges && Holds(b.check, s) then [b] else [])
  }

  /** The scan keeps exactly the catalog badges that are not yet earned and whose check holds. */
  lemma {:induction false} UnlockedMembers(defs: seq<Badge>, s: State)
    ensures forall b :: b in Unlocked(defs, s) <==> b in defs && b.id !in s.earnedBadges && Holds(b.check, s)
    decreases |defs|
  {
    if defs != [] {
      var init, b := defs[..|defs| - 1], defs[|defs| - 1];
      assert defs == init + [b];
      UnlockedMembers(init, s);
    }
  }

  /** Over a catalog with distinct ids, the scan unlocks badges with distinct ids. */
  lemma {:induction false} UnlockedDistinct(defs: seq<Badge>, s: State)
    requires DistinctIds(defs)
    ensures DistinctIds(Unlocked(defs, s))
    decreases |defs|
  {
    if defs != [] {
      var init, b := defs[..|defs| - 1], defs[|defs| - 1];
      assert defs == init + [b];
      assert DistinctIds(init) by {
        forall i, j | 0 <= i < j < |init| ensures init[i].id != init[j].id {
          assert init[i] == defs[i] && init[j] == defs[j];
        }
      }
      UnlockedDistinct(init, s);
      UnlockedMembers(init, s);
      var u := Unlocked(init, s);
      LastIdIsNew(init, b, u);
      var r := u + (if b.id !in s.earnedBadges && Holds(b.check, s) then [b] else []);
      forall i, j | 0 <= i < j < |r| ensures r[i].id != r[j].id {
        if j < |u| {
          assert r[i] == u[i] && r[j] == u[j];
        } else {
          assert r[i] == u[i] && r[j] == b;
        }
      }
    }
  }

  /** In a catalog with distinct ids, badges drawn from all but the last entry carry other ids than the last. */
  lemma LastIdIsNew(init: seq<Badge>, b: Badge, u: seq<Badge>)
    requires DistinctIds(init + [b])
    requires forall x :: x in u ==> x in init
    ensures forall k :: 0 <= k < |u| ==> u[k].id != b.id
  {
    var defs := init + [b];
    forall k | 0 <= k < |u| ensures u[k].id != b.id {
      assert u[k] in init;
      var p :| 0 <= p < |init| && init[p] == u[k];
      assert defs[p] == u[k] && defs[|init|] == b;
    }
  }

  /** The last badge of a list, or none. */
  function Last(bs: seq<Badge>): (r: Option<Badge>)
    ensures r.None? <==> bs == []
    ensures r.Some? ==> r.value == bs[|bs| - 1]
  {
    if bs == [] then None else Some(bs[|bs| - 1])
  }

  /** What `checkBadges` returns: the updated state and the badge to announce (`justEarned`). */
  datatype Outcome = Outcome(updated: State, justEarned: Option<Badge>)

  /**
   * `checkBadges(s)` as a value. The old earned list is kept as a prefix; what is
   * appended is exactly the not-yet-earned catalog badges whose check holds, in
   * catalog order; the announced badge is the last of them; nothing else changes.
   */
  function Checked(s: State): (o: Outcome)
    ensures IsPrefix(s.earnedBadges, o.updated.earnedBadges)
    ensures forall id :: id in o.updated.earnedBadges[|s.earnedBadges|..] <==>
      exists b :: b in BadgeDefs && b.id == id && id !in s.earnedBadges && Holds(b.check, s)
    ensures NoDup(o.updated.earnedBadges[|s.earnedBadges|..])
    ensures NoDup(s.earnedBadges) ==> NoDup(o.updated.earnedBadges)
    ensures forall b :: b in BadgeDefs && Holds(b.check, s) ==> b.id in o.updated.earnedBadges
    ensures o.justEarned.None? <==> o.updated.earnedBadges == s.earnedBadges
    ensures o.justEarned.Some? ==>
      o.justEarned.value in BadgeDefs &&
      o.justEarned.value.id == o.updated.earnedBadges[|o.updated.earnedBadges| - 1]
    ensures o.updated == s.(earnedBadges := o.updated.earnedBadges)
  {
    CatalogIdsDistinct();
    ScanFacts(BadgeDefs, s);
    var newly := Unlocked(BadgeDefs, s);
    Outcome(s.(earnedBadges := s.earnedBadges + Ids(newly)), Last(newly))
  }

  /** What a scan over a catalog with distinct ids appends to the earned list, and what it announces. */
  lemma ScanFacts(defs: seq<Badge>, s: State)
    requires DistinctIds(defs)
    ensures var newly := Unlocked(defs, s);
            var earned := s.earnedBadges + Ids(newly);
      && IsPrefix(s.earnedBadges, earned)
      && (forall id :: id in earned[|s.earnedBadges|..] <==>
            exists b :: b in defs && b.id == id && id !in s.earnedBadges && Holds(b.check, s))
      && NoDup(earned[|s.earnedBadges|..])
      && (NoDup(s.earnedBadges) ==> NoDup(earned))
      && (forall b :: b in defs && Holds(b.check, s) ==> b.id in earned)
      && (newly == [] <==> earned == s.earnedBadges)
      && (newly != [] ==> newly[|newly| - 1] in defs && newly[|newly| - 1].id == earned[|earned| - 1])
  {
    var newly := Unlocked(defs, s);
    var earned := s.earnedBadges + Ids(newly);
    assert earned[|s.earnedBadges|..] == Ids(newly);
    assert earned[..|s.earnedBadges|] == s.earnedBadges;
    UnlockedMembers(defs, s);
    UnlockedDistinct(defs, s);
    assert NoDup(Ids(newly));
    assert forall id :: id in Ids(newly) <==>
        exists b :: b in defs && b.id == id && id !in s.earnedBadges && Holds(b.check, s) by {
      forall id {
        UnlockedIds(defs, s, id);
      }
    }
    assert NoDup(s.earnedBadges) ==> NoDup(earned) by {
      if NoDup(s.earnedBadges) {
        forall k | 0 <= k < |newly| ensures Ids(newly)[k] !in s.earnedBadges {
          assert newly[k] in newly;
        }
        AppendFreshIds(s.earnedBadges, Ids(newly));
      }
    }
    assert forall b :: b in defs && Holds(b.check, s) ==> b.id in earned by {
      forall b | b in defs && Holds(b.check, s) ensures b.id in earned {
        UnlockedIds(defs, s, b.id);
      }
    }
    assert newly != [] ==> newly[|newly| - 1] in newly;
  }

  /** An id is newly unlocked exactly when some entry with that id is not yet earned and holds. */
  lemma UnlockedIds(defs: seq<Badge>, s: State, id: string)
    ensures id in Ids(Unlocked(defs, s)) <==>
      exists b :: b in defs && b.id == id && id !in s.earnedBadges && Holds(b.check, s)
  {
    var newly := Unlocked(defs, s);
    UnlockedMembers(defs, s);
    if id in Ids(newly) {
      var k :| 0 <= k < |newly| && Ids(newly)[k] == id;
      assert newly[k] in newly;
    }
    if exists b :: b in defs && b.id == id && id !in s.earnedBadges && Holds(b.check, s) {
      var b :| b in defs && b.id == id && id !in s.earnedBadges && Holds(b.check, s);
      assert b in newly;
      var k :| 0 <= k < |newly| && newly[k] == b;
      assert Ids(newly)[k] == id;
    }
  }

  /** Appending distinct ids that are all new to a duplicate-free list keeps it duplicate-free. */
  lemma AppendFreshIds(prior: seq<string>, ids: seq<string>)
    requires NoDup(prior) && NoDup(ids)
    requires forall k :: 0 <= k < |ids| ==> ids[k] !in prior
    ensures NoDup(prior + ids)
  {
    var e := prior + ids;
    forall i, j | 0 <= i < j < |e| ensures e[i] != e[j] {
      if j >= |prior| {
        assert e[j] == ids[j - |prior|];
        if i < |prior| {
          assert e[i] in prior;
        } else {
          assert e[i] == ids[i - |prior|];
        }
      }
    }
  }

  /** One step of the catalog scan: the next entry is unlocked exactly when its id is not in the list built so far. */
  lemma UnlockedStep(defs: seq<Badge>, i: nat, s: State)
    requires DistinctIds(defs) && i < |defs|
    ensures Unlocked(defs[..i + 1], s) ==
      Unlocked(defs[..i], s) + (if defs[i].id !in s.earnedBadges && Holds(defs[i].check, s) then [defs[i]] else [])
    ensures defs[i].id !in Ids(Unlocked(defs[..i], s))
  {
    assert defs[..i + 1][..i] == defs[..i] && defs[..i + 1][i] == defs[i];
    var u := Unlocked(defs[..i], s);
    UnlockedMembers(defs[..i], s);
    forall k | 0 <= k < |u| ensures Ids(u)[k] != defs[i].id {
      assert u[k] in defs[..i];
      var p :| 0 <= p < i && defs[p] == u[k];
    }
  }

  /** Whether entry `i` of `defs` is unlocked on `s`: not yet earned, and its check holds. */
  predicate Hit(defs: seq<Badge>, i: nat, s: State)
    requires i < |defs|
  {
    defs[i].id !in s.earnedBadges && Holds(defs[i].check, s)
  }

  /** No entry of `defs` from `i` up to (not including) `j` is unlocked on `s`. */
  predicate NoHitBetween(defs: seq<Badge>, s: State, i: nat, j: nat)
    requires j <= |defs|
    decreases j - i
  {
    i >= j || (!Hit(defs, i, s) && NoHitBetween(defs, s, i + 1, j))
  }

  /** Entries that are not unlocked add nothing to the scan. */
  lemma {:induction false} UnlockedSkip(defs: seq<Badge>, s: State, i: nat, j: nat)
    requires i <= j <= |defs|
    requires NoHitBetween(defs, s, i, j)
    ensures Unlocked(defs[..j], s) == Unlocked(defs[..i], s)
    decreases j - i
  {
    if i < j {
      UnlockedSkip(defs, s, i + 1, j);
      UnlockedAppend(defs, s, i);
      var u := Unlocked(defs[..i], s);
      assert u + [] == u;
    }
  }

  /** Scanning one more entry adds it exactly when it is unlocked. */
  lemma UnlockedAppend(defs: seq<Badge>, s: State, i: nat)
    requires i < |defs|
    ensures Unlocked(defs[..i + 1], s) == Unlocked(defs[..i], s) + (if Hit(defs, i, s) then [defs[i]] else [])
  {
    assert defs[..i + 1][..i] == defs[..i] && defs[..i + 1][i] == defs[i];
  }

  /**
   * The announced badge is the unlocked one that comes last in the scan: when
   * entry `j` is unlocked and no later entry is, the scan ends announcing `j`.
   */
  lemma AnnouncedIsLastHit(defs: seq<Badge>, s: State, j: nat)
    requires j < |defs| && Hit(defs, j, s)
    requires NoHitBetween(defs, s, j + 1, |defs|)
    ensures Last(Unlocked(defs, s)) == Some(defs[j])
  {
    UnlockedSkip(defs, s, j + 1, |defs|);
    UnlockedAppend(defs, s, j);
    assert defs[..|defs|] == defs;
  }

  /** When entry `j` is the only one unlocked, the scan unlocks it alone. */
  lemma UnlockedSingle(defs: seq<Badge>, s: State, j: nat)
    requires j < |defs| && Hit(defs, j, s)
    requires NoHitBetween(defs, s, 0, j) && NoHitBetween(defs, s, j + 1, |defs|)
    ensures Unlocked(defs, s) == [defs[j]]
  {
    UnlockedSkip(defs, s, j + 1, |defs|);
    UnlockedAppend(defs, s, j);
    UnlockedSkip(defs, s, 0, j);
    assert defs[..|defs|] == defs && defs[..0] == [];
  }

  /** When entry `j` is the only one unlocked, the badge check earns and announces it alone. */
  lemma CheckedSingleHit(s: State, j: nat)
    requires j < |BadgeDefs| && Hit(BadgeDefs, j, s)
    requires NoHitBetween(BadgeDefs, s, 0, j) && NoHitBetween(BadgeDefs, s, j + 1, |BadgeDefs|)
    ensures Checked(s) == Outcome(s.(earnedBadges := s.earnedBadges + [BadgeDefs[j].id]), Some(BadgeDefs[j]))
  {
    UnlockedSingle(BadgeDefs, s, j);
    assert Ids([BadgeDefs[j]]) == [BadgeDefs[j].id];
  }

  /** The badge check announces the catalog entry that is unlocked last in catalog order. */
  lemma CheckedAnnouncesLastHit(s: State, j: nat)
    requires j < |BadgeDefs| && Hit(BadgeDefs, j, s)
    requires NoHitBetween(BadgeDefs, s, j + 1, |BadgeDefs|)
    ensures Checked(s).justEarned == Some(BadgeDefs[j])
  {
    AnnouncedIsLastHit(BadgeDefs, s, j);
  }

  /** One turn of the loop in CheckBadges keeps its invariant. */
  lemma ScanStep(defs: seq<Badge>, i: nat, s: State, earned: seq<string>, justEarned: Option<Badge>,
                 earned': seq<string>, justEarned': Option<Badge>)
    requires DistinctIds(defs) && i < |defs|
    requires earned == s.earnedBadges + Ids(Unlocked(defs[..i], s))
    requires justEarned == Last(Unlocked(defs[..i], s))
    requires var b := defs[i];
             var hit := b.id !in earned && Holds(b.check, s);
      && earned' == (if hit then earned + [b.id] else earned)
      && justEarned' == (if hit then Some(b) else justEarned)
    ensures earned' == s.earnedBadges + Ids(Unlocked(defs[..i + 1], s))
    ensures justEarned' == Last(Unlocked(defs[..i + 1], s))
  {
    var b := defs[i];
    var u := Unlocked(defs[..i], s);
    UnlockedStep(defs, i, s);
    IdsConcat(u, [b]);
    assert Ids([b]) == [b.id];
    assert b.id in earned <==> b.id in s.earnedBadges;
    if b.id !in earned && Holds(b.check, s) {
      assert earned + [b.id] == s.earnedBadges + Ids(u + [b]);
    } else {
      assert u + [] == u;
    }
  }

  /**
   * `checkBadges`, as streakflow.jsx:115-125 runs it: a loop over the catalog that
   * pushes onto a copy of the earned list and overwrites `justEarned` on every
   * new badge.
   */
  method CheckBadges(s: State) returns (o: Outcome)
    ensures o == Checked(s)
  {
    var earned := s.earnedBadges;
    var justEarned: Option<Badge> := None;
    var i := 0;
    CatalogIdsDistinct();
    assert BadgeDefs[..0] == [] && Ids([]) == [];
    while i < |BadgeDefs|
      invariant 0 <= i <= |BadgeDefs|
      invariant earned == s.earnedBadges + Ids(Unlocked(BadgeDefs[..i], s))
      invariant justEarned == Last(Unlocked(BadgeDefs[..i], s))
    {
      var b := BadgeDefs[i];
      ghost var earned0, justEarned0 := earned, justEarned;
      if b.id !in earned && Holds(b.check, s) {
        earned := earned + [b.id];
        justEarned := Some(b);
      }
      ScanStep(BadgeDefs, i, s, earned0, justEarned0, earned, justEarned);
      i := i + 1;
    }
    assert BadgeDefs[..i] == BadgeDefs;
    o := Outcome(s.(earnedBadges := earned), justEarned);
  }

  /** No check reads the earned list. */
  lemma HoldsIgnoresEarned(c: Check, s: State, earned: seq<string>)
    ensures Holds(c, s.(earnedBadges := earned)) == Holds(c, s)
  {
  }

  /** Checking a second time earns nothing and announces nothing. */
  lemma CheckTwiceAddsNothing(s: State)
    ensures var o := Checked(s);
            Checked(o.updated) == Outcome(o.updated, None)
  {
    var o := Checked(s);
    var u := Unlocked(BadgeDefs, o.updated);
    UnlockedMembers(BadgeDefs, o.updated);
    if u != [] {
      var b := u[0];
      assert b in u;
      HoldsIgnoresEarned(b.check, s, o.updated.earnedBadges);
      assert false;
    }
  }
}
