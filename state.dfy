/**
 * The tracker's single state record (DEFAULT_STATE in streakflow.jsx), its
 * tasks and history entries, the category and priority catalogs with their
 * look-up fallbacks, and the task filters that the views and the operations use.
 */
module Model {
  import opened Wrappers

  /** A task. `doneAt` is absent until the task is first completed, and null after an un-completion: both are `None`. */
  datatype Task = Task(
    id: int,
    title: string,
    category: string,
    priority: string,
    due: string,
    done: bool,
    createdAt: string,
    doneAt: Option<string>)

  /** The completions credited on one calendar date. */
  datatype HistoryEntry = HistoryEntry(date: string, count: int)

  datatype State = State(
    tasks: seq<Task>,
    streak: int,
    longestStreak: int,
    lastActiveDate: Option<string>,
    totalDone: int,
    earnedBadges: seq<string>,
    earlyBird: bool,
    nightOwl: bool,
    hadPerfectDay: bool,
    uniqueCategories: int,
    highPrioDone: int,
    usedCategories: seq<string>,
    history: seq<HistoryEntry>)

  /** The state of a first start, or of a start whose load from storage failed. */
  const DefaultState: State :=
    State([], 0, 0, None, 0, [], false, false, false, 0, 0, [], [])

  function Max(a: int, b: int): (m: int)
    ensures m >= a && m >= b && (m == a || m == b)
  {
    if a >= b then a else b
  }

  // ---- categories and priorities ----

  /** A catalog entry; `name` is the source's `label`. */
  datatype Category = Category(name: string, color: string, bg: string)
  datatype Priority = Priority(name: string, color: string)

  const Cats: seq<Category> := [
    Category("Study", "#4ade80", "#052e16"),
    Category("Work", "#60a5fa", "#0c1a2e"),
    Category("Personal", "#f472b6", "#2d0b1f"),
    Category("Health", "#fb923c", "#2c1000"),
    Category("Other", "#a78bfa", "#150d2e")
  ]

  const Prios: seq<Priority> := [
    Priority("High", "#f87171"),
    Priority("Medium", "#fbbf24"),
    Priority("Low", "#6ee7b7")
  ]

  /** `cats.find((c) => c.label === name)`. */
  function FindCategory(cats: seq<Category>, name: string): (r: Option<Category>)
    ensures r.Some? ==> r.value in cats && r.value.name == name
    ensures r.None? <==> forall c :: c in cats ==> c.name != name
  {
    if cats == [] then None
    else if cats[0].name == name then Some(cats[0])
    else FindCategory(cats[1..], name)
  }

  /** `prios.find((p) => p.label === name)`. */
  function FindPriority(prios: seq<Priority>, name: string): (r: Option<Priority>)
    ensures r.Some? ==> r.value in prios && r.value.name == name
    ensures r.None? <==> forall p :: p in prios ==> p.name != name
  {
    if prios == [] then None
    else if prios[0].name == name then Some(prios[0])
    else FindPriority(prios[1..], name)
  }

  /** The catalog entry of a category label; an unknown name is shown as "Other". */
  function CatOf(name: string): (c: Category)
    ensures c in Cats
    ensures (exists k :: 0 <= k < |Cats| && Cats[k].name == name) ==> c.name == name
    ensures (forall k :: 0 <= k < |Cats| ==> Cats[k].name != name) ==> c == Cats[4]
  {
    FindCategory(Cats, name).GetOr(Cats[4])
  }

  /** The catalog entry of a priority name; an unknown name is shown as "Medium". */
  function PrioOf(name: string): (p: Priority)
    ensures p in Prios
    ensures (exists k :: 0 <= k < |Prios| && Prios[k].name == name) ==> p.name == name
    ensures (forall k :: 0 <= k < |Prios| ==> Prios[k].name != name) ==> p == Prios[1]
  {
    FindPriority(Prios, name).GetOr(Prios[1])
  }

  // ---- task filters ----

  /** The conditions that `tasks.filter(...)` is called with in the component. */
  datatype TaskFilter =
    | DueOn(date: string)
    | InCategory(name: string)
    | DoneInCategory(name: string)
    | IsDone
    | DoneHigh
    | WithId(id: int)
    | NotId(id: int)

  predicate Matches(f: TaskFilter, t: Task) {
    match f
    case DueOn(d) => t.due == d
    case InCategory(l) => t.category == l
    case DoneInCategory(l) => t.category == l && t.done
    case IsDone => t.done
    case DoneHigh => t.done && t.priority == "High"
    case WithId(id) => t.id == id
    case NotId(id) => t.id != id
  }

  /** `ts.filter(f)`: the tasks that match, in their order. */
  function Select(ts: seq<Task>, f: TaskFilter): (r: seq<Task>)
    ensures |r| <= |ts|
    ensures forall t :: t in r <==> t in ts && Matches(f, t)
  {
    if ts == [] then []
    else (if Matches(f, ts[0]) then [ts[0]] else []) + Select(ts[1..], f)
  }

  /** Filtering a concatenation filters each part and keeps their order. */
  lemma {:induction false} SelectConcat(a: seq<Task>, b: seq<Task>, f: TaskFilter)
    ensures Select(a + b, f) == Select(a, f) + Select(b, f)
  {
    if a == [] {
      assert a + b == b;
    } else {
      var c := a + b;
      assert c[0] == a[0] && c[1..] == a[1..] + b;
      SelectConcat(a[1..], b, f);
      var h := if Matches(f, a[0]) then [a[0]] else [];
      assert Select(c, f) == h + Select(c[1..], f);
      assert Select(a, f) == h + Select(a[1..], f);
      assert h + (Select(a[1..], f) + Select(b, f)) == (h + Select(a[1..], f)) + Select(b, f);
    }
  }

  /** Replacing the task at one position changes the count of matches by what that task contributes. */
  lemma SelectPointChange(a: seq<Task>, b: seq<Task>, k: nat, f: TaskFilter)
    requires |a| == |b| && k < |a|
    requires forall i :: 0 <= i < |a| && i != k ==> a[i] == b[i]
    ensures |Select(b, f)| == |Select(a, f)| - (if Matches(f, a[k]) then 1 else 0) + (if Matches(f, b[k]) then 1 else 0)
  {
    assert a == a[..k] + [a[k]] + a[k + 1..];
    assert b == b[..k] + [b[k]] + b[k + 1..];
    assert a[..k] == b[..k] && a[k + 1..] == b[k + 1..];
    SelectConcat(a[..k] + [a[k]], a[k + 1..], f);
    SelectConcat(a[..k], [a[k]], f);
    SelectConcat(b[..k] + [b[k]], b[k + 1..], f);
    SelectConcat(b[..k], [b[k]], f);
  }

  /** Every task matches exactly when the filter keeps them all. */
  lemma {:induction false} SelectKeepsAll(ts: seq<Task>, f: TaskFilter)
    ensures |Select(ts, f)| == |ts| <==> forall i :: 0 <= i < |ts| ==> Matches(f, ts[i])
  {
    if ts != [] {
      SelectKeepsAll(ts[1..], f);
      assert forall i :: 1 <= i < |ts| ==> ts[i] == ts[1..][i - 1];
    }
  }

  /** A stronger filter keeps at most as many tasks. */
  lemma {:induction false} SelectMonotone(ts: seq<Task>, f: TaskFilter, g: TaskFilter)
    requires forall t :: Matches(f, t) ==> Matches(g, t)
    ensures |Select(ts, f)| <= |Select(ts, g)|
  {
    if ts != [] {
      SelectMonotone(ts[1..], f, g);
    }
  }

  /** The number of tasks that match. */
  function Count(ts: seq<Task>, f: TaskFilter): nat {
    |Select(ts, f)|
  }

  /** Whether some task has the id. */
  predicate HasTask(ts: seq<Task>, id: int) {
    exists i :: 0 <= i < |ts| && ts[i].id == id
  }

  predicate UniqueIds(ts: seq<Task>) {
    forall i, j :: 0 <= i < j < |ts| ==> ts[i].id != ts[j].id
  }
}
