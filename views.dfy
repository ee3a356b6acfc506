/**
 * The derived queries the interface renders: today's tasks, the category
 * filter, today's done count and progress (streakflow.jsx:193-196), the
 * overdue mark of a task card (streakflow.jsx:561) and the per-category
 * breakdown (streakflow.jsx:533-536).
 */
module Views {
  import opened Model
  import opened Text

  /** `tasks.filter((t) => t.due === today())`. */
  function TodayTasks(ts: seq<Task>, today: string): (r: seq<Task>)
    ensures |r| <= |ts|
    ensures forall t :: t in r <==> t in ts && t.due == today
  {
    Select(ts, DueOn(today))
  }

  /** The task list under the category filter; "All" shows every task. */
  function FilteredTasks(ts: seq<Task>, filter: string): (r: seq<Task>)
    ensures filter == "All" ==> r == ts
    ensures filter != "All" ==> forall t :: t in r <==> t in ts && t.category == filter
  {
    if filter == "All" then ts else Select(ts, InCategory(filter))
  }

  /** `ts.every((t) => t.done)`. */
  predicate AllDone(ts: seq<Task>) {
    forall i :: 0 <= i < |ts| ==> ts[i].done
  }

  /** The number of today's tasks that are done. */
  function DoneTodayCount(ts: seq<Task>, today: string): (n: nat)
    ensures n <= |TodayTasks(ts, today)|
    ensures n == |TodayTasks(ts, today)| <==> AllDone(TodayTasks(ts, today))
  {
    SelectKeepsAll(TodayTasks(ts, today), IsDone);
    Count(TodayTasks(ts, today), IsDone)
  }

  /**
   * `Math.round(part / whole * 100)` in exact arithmetic, 0 when there is nothing
   * to divide by: the integer nearest to 100 * part / whole, halves rounded up.
   */
  function RoundedPercent(part: int, whole: int): (r: int)
    requires 0 <= part <= whole
    ensures 0 <= r <= 100
    ensures whole == 0 ==> r == 0
    ensures whole > 0 ==> (2 * r - 1) * whole <= 200 * part < (2 * r + 1) * whole
    ensures whole > 0 && part == whole ==> r == 100
    ensures part == 0 ==> r == 0
  {
    if whole == 0 then 0
    else
      RoundingBounds(part, whole);
      (200 * part + whole) / (2 * whole)
  }

  /** The nearest-integer property of the rounding formula. */
  lemma RoundingBounds(part: int, whole: int)
    requires 0 <= part <= whole && whole > 0
    ensures var r := (200 * part + whole) / (2 * whole);
      && 0 <= r <= 100
      && (2 * r - 1) * whole <= 200 * part < (2 * r + 1) * whole
      && (part == whole ==> r == 100)
      && (part == 0 ==> r == 0)
  {
    var q := (200 * part + whole) / (2 * whole);
    QuotientBounds(200 * part + whole, 2 * whole);
    assert (2 * q - 1) * whole == 2 * whole * q - whole;
    assert (2 * q + 1) * whole == 2 * whole * q + whole;
    QuotientRange(part, whole, q);
  }

  /** Euclidean division brackets the dividend. */
  lemma QuotientBounds(n: int, d: int)
    requires d > 0
    ensures d * (n / d) <= n < d * (n / d) + d
  {
  }

  /** A quotient bracketed as in RoundingBounds lies in 0..100, at the ends exactly when the part is. */
  lemma QuotientRange(part: int, whole: int, q: int)
    requires 0 <= part <= whole && whole > 0
    requires 2 * whole * q <= 200 * part + whole < 2 * whole * q + 2 * whole
    ensures 0 <= q <= 100
    ensures part == whole ==> q == 100
    ensures part == 0 ==> q == 0
  {
    var d := 2 * whole;
    assert d * q == 2 * whole * q;
    assert (q + 1) * d == d * q + d;
    assert 101 * d == 202 * whole && 100 * d == 200 * whole;
    // q * d <= 200 * part + whole <= 201 * whole < 101 * d, so q <= 100
    if q > 100 {
      MulLeq(101, q, d);
    }
    // 0 <= 200 * part + whole < (q + 1) * d, so q >= 0
    if q < 0 {
      MulLeq(q + 1, 0, d);
    }
    if part == whole && q < 100 {
      MulLeq(q + 1, 100, d);
    }
    if part == 0 && q > 0 {
      MulLeq(1, q, d);
    }
  }

  lemma MulLeq(a: int, b: int, c: int)
    requires c > 0 && a <= b
    ensures a * c <= b * c
  {
  }

  /** Today's progress in percent. */
  function Progress(ts: seq<Task>, today: string): (r: int)
    ensures 0 <= r <= 100
    ensures |TodayTasks(ts, today)| == 0 ==> r == 0
    ensures |TodayTasks(ts, today)| > 0 && AllDone(TodayTasks(ts, today)) ==> r == 100
    ensures DoneTodayCount(ts, today) == 0 ==> r == 0
  {
    var total := |TodayTasks(ts, today)|;
    if total > 0 then RoundedPercent(DoneTodayCount(ts, today), total) else 0
  }

  /** The overdue mark of a task card: not done, and due strictly before today in string order. */
  predicate Overdue(t: Task, today: string) {
    !t.done && Less(t.due, today)
  }

  /** A task due today, or done, is never overdue; on ISO dates overdue means due on an earlier calendar day. */
  lemma OverdueMeansEarlier(t: Task, today: string)
    ensures Overdue(t, today) ==> !t.done && t.due != today
    ensures IsIsoDate(t.due) && IsIsoDate(today) ==>
      (Overdue(t, today) <==> !t.done && DayKey(t.due) < DayKey(today))
  {
    LessIrreflexive(today);
    if IsIsoDate(t.due) && IsIsoDate(today) {
      IsoDateOrder(t.due, today);
    }
  }

  /** The tasks of one category. */
  function CategoryTotal(ts: seq<Task>, name: string): nat {
    Count(ts, InCategory(name))
  }

  /** The done tasks of one category: never more than the category holds. */
  function CategoryDone(ts: seq<Task>, name: string): (n: nat)
    ensures n <= CategoryTotal(ts, name)
  {
    SelectMonotone(ts, DoneInCategory(name), InCategory(name));
    Count(ts, DoneInCategory(name))
  }

  /** The width of a category's bar, in percent. */
  function CategoryPercent(ts: seq<Task>, name: string): (r: int)
    ensures 0 <= r <= 100
    ensures CategoryTotal(ts, name) == 0 ==> r == 0
    ensures CategoryTotal(ts, name) > 0 && CategoryDone(ts, name) == CategoryTotal(ts, name) ==> r == 100
  {
    var total := CategoryTotal(ts, name);
    if total > 0 then RoundedPercent(CategoryDone(ts, name), total) else 0
  }

  /** The category totals over a list of catalog entries. */
  function TotalOver(ts: seq<Task>, cats: seq<Category>): nat {
    if cats == [] then 0 else CategoryTotal(ts, cats[0].name) + TotalOver(ts, cats[1..])
  }

  /** How many entries of `cats` carry the name `c`. */
  function Hits(c: string, cats: seq<Category>): nat {
    if cats == [] then 0 else (if cats[0].name == c then 1 else 0) + Hits(c, cats[1..])
  }

  lemma {:induction false} TotalOverFirst(t: Task, rest: seq<Task>, cats: seq<Category>)
    ensures TotalOver([t] + rest, cats) == Hits(t.category, cats) + TotalOver(rest, cats)
  {
    if cats != [] {
      assert ([t] + rest)[0] == t && ([t] + rest)[1..] == rest;
      TotalOverFirst(t, rest, cats[1..]);
    }
  }

  /**
   * When every task's category is one of the five catalog labels, the breakdown
   * accounts for every task exactly once.
   */
  lemma {:induction false} BreakdownCoversAll(ts: seq<Task>)
    requires forall i :: 0 <= i < |ts| ==> exists k :: 0 <= k < |Cats| && Cats[k].name == ts[i].category
    ensures TotalOver(ts, Cats) == |ts|
  {
    if ts != [] {
      assert ts == [ts[0]] + ts[1..];
      TotalOverFirst(ts[0], ts[1..], Cats);
      BreakdownCoversAll(ts[1..]);
      CatalogNamesDistinct();
      HitsOnce(ts[0].category, Cats);
    } else {
      TotalOverNone(Cats);
    }
  }

  /** Without tasks every category total is zero. */
  lemma {:induction false} TotalOverNone(cats: seq<Category>)
    ensures TotalOver([], cats) == 0
  {
    if cats != [] {
      TotalOverNone(cats[1..]);
    }
  }

  predicate DistinctNames(cats: seq<Category>) {
    forall i, j :: 0 <= i < j < |cats| ==> cats[i].name != cats[j].name
  }

  lemma CatalogNamesDistinct()
    ensures DistinctNames(Cats)
  {
  }

  /** A name that no entry carries is counted nowhere. */
  lemma {:induction false} HitsNone(c: string, cats: seq<Category>)
    requires forall k :: 0 <= k < |cats| ==> cats[k].name != c
    ensures Hits(c, cats) == 0
  {
    if cats != [] {
      assert forall k :: 0 <= k < |cats| - 1 ==> cats[1..][k] == cats[k + 1];
      HitsNone(c, cats[1..]);
    }
  }

  /** Among distinct names, a name that some entry carries is counted exactly once. */
  lemma {:induction false} HitsOnce(c: string, cats: seq<Category>)
    requires DistinctNames(cats)
    requires exists k :: 0 <= k < |cats| && cats[k].name == c
    ensures Hits(c, cats) == 1
  {
    var rest := cats[1..];
    if cats[0].name == c {
      forall k | 0 <= k < |rest| ensures rest[k].name != c {
        assert rest[k] == cats[k + 1];
      }
      HitsNone(c, rest);
    } else {
      var k :| 0 <= k < |cats| && cats[k].name == c;
      assert rest[k - 1] == cats[k];
      assert DistinctNames(rest) by {
        forall i, j | 0 <= i < j < |rest| ensures rest[i].name != rest[j].name {
          assert rest[i] == cats[i + 1] && rest[j] == cats[j + 1];
        }
      }
      HitsOnce(c, rest);
    }
  }
}
