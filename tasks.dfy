/**
 * The to-do list's task records and the pure list transformations behind
 * the store: filtering, first-match updates, the filtered/searched view,
 * the row colour tag and the statistics line.
 */
module Tasks {
  import opened Text
  import opened Wrappers

  const Pending: string := "Pending"
  const Completed: string := "Completed"

  /** One to-do record, with the keys the store keeps for each task. */
  datatype Task = Task(
    id: int,
    description: string,
    priority: string,
    status: string,
    createdDate: string,
    completedDate: string)

  // ---------------------------------------------------------------------
  // Order-preserving filters (the list comprehensions of the store)
  // ---------------------------------------------------------------------

  /** `[t for t in ts if keep(t)]`. */
  function Filter(ts: seq<Task>, keep: Task -> bool): (r: seq<Task>)
    ensures |r| == Count(ts, keep)
    ensures forall i :: 0 <= i < |r| ==> keep(r[i])
    ensures forall t :: t in r ==> t in ts
  {
    if ts == [] then []
    else if keep(ts[0]) then [ts[0]] + Filter(ts[1..], keep)
    else Filter(ts[1..], keep)
  }

  /** `sum(1 for t in ts if keep(t))`. */
  function Count(ts: seq<Task>, keep: Task -> bool): (n: nat)
    ensures n <= |ts|
    ensures n == 0 <==> forall i :: 0 <= i < |ts| ==> !keep(ts[i])
    ensures n == |ts| <==> forall i :: 0 <= i < |ts| ==> keep(ts[i])
  {
    if ts == [] then 0 else (if keep(ts[0]) then 1 else 0) + Count(ts[1..], keep)
  }

  /** `a` is `b` with some elements dropped and the rest in their original order. */
  ghost predicate IsSubsequence(a: seq<Task>, b: seq<Task>) {
    if a == [] then true
    else if b == [] then false
    else (a[0] == b[0] && IsSubsequence(a[1..], b[1..])) || IsSubsequence(a, b[1..])
  }

  function StatusIs(s: string): Task -> bool { (t: Task) => t.status == s }
  function StatusIsNot(s: string): Task -> bool { (t: Task) => t.status != s }
  function PriorityIs(p: string): Task -> bool { (t: Task) => t.priority == p }
  function DescriptionIs(d: string): Task -> bool { (t: Task) => t.description == d }
  function DescriptionIsNot(d: string): Task -> bool { (t: Task) => t.description != d }
  function DescriptionContains(needle: string): Task -> bool { (t: Task) => Contains(Lower(t.description), needle) }
  function Both(p: Task -> bool, q: Task -> bool): Task -> bool { (t: Task) => p(t) && q(t) }

  /** A filter keeps the order of what it keeps. */
  lemma {:induction false} FilterIsSubsequence(ts: seq<Task>, keep: Task -> bool)
    ensures IsSubsequence(Filter(ts, keep), ts)
  {
    if ts != [] {
      FilterIsSubsequence(ts[1..], keep);
      var r := Filter(ts, keep);
      if keep(ts[0]) {
        assert r[0] == ts[0] && r[1..] == Filter(ts[1..], keep);
      } else if r != [] {
        assert r == Filter(ts[1..], keep);
      }
    }
  }

  /** A filter keeps every occurrence of what it keeps and nothing else. */
  lemma {:induction false} FilterMultiset(ts: seq<Task>, keep: Task -> bool)
    ensures forall t :: multiset(Filter(ts, keep))[t] == if keep(t) then multiset(ts)[t] else 0
  {
    if ts != [] {
      FilterMultiset(ts[1..], keep);
      assert ts == [ts[0]] + ts[1..];
    }
  }

  /** Filtering twice is filtering once by both conditions. */
  lemma {:induction false} FilterFilter(ts: seq<Task>, p: Task -> bool, q: Task -> bool)
    ensures Filter(Filter(ts, p), q) == Filter(ts, Both(p, q))
  {
    if ts != [] {
      FilterFilter(ts[1..], p, q);
      if p(ts[0]) {
        assert Filter(ts, p) == [ts[0]] + Filter(ts[1..], p);
        assert Filter(ts, p)[1..] == Filter(ts[1..], p);
      }
    }
  }

  /** Filters that agree on every element of the list give the same result. */
  lemma {:induction false} FilterCongruent(ts: seq<Task>, p: Task -> bool, q: Task -> bool)
    requires forall i :: 0 <= i < |ts| ==> p(ts[i]) == q(ts[i])
    ensures Filter(ts, p) == Filter(ts, q)
  {
    if ts != [] {
      FilterCongruent(ts[1..], p, q);
    }
  }

  /** A filter that keeps everything returns the whole list. */
  lemma {:induction false} FilterAll(ts: seq<Task>, keep: Task -> bool)
    requires forall i :: 0 <= i < |ts| ==> keep(ts[i])
    ensures Filter(ts, keep) == ts
  {
    if ts != [] {
      FilterAll(ts[1..], keep);
    }
  }

  /** Every element is counted by a condition or by its negation, never both. */
  lemma {:induction false} CountSplit(ts: seq<Task>, keep: Task -> bool, drop: Task -> bool)
    requires forall t :: drop(t) == !keep(t)
    ensures Count(ts, keep) + Count(ts, drop) == |ts|
  {
    if ts != [] {
      CountSplit(ts[1..], keep, drop);
    }
  }

  // ---------------------------------------------------------------------
  // First match by description (how the store finds the selected task)
  // ---------------------------------------------------------------------

  predicate HasDescription(ts: seq<Task>, d: string) {
    exists i :: 0 <= i < |ts| && ts[i].description == d
  }

  /** `i` is the position of the first task whose description is `d`. */
  predicate IsFirstMatch(ts: seq<Task>, d: string, i: int) {
    0 <= i < |ts| && ts[i].description == d && forall j :: 0 <= j < i ==> ts[j].description != d
  }

  /** `next((t for t in ts if t['description'] == d), None)`, as a position. */
  function FindFirst(ts: seq<Task>, d: string): (r: Option<nat>)
    ensures r.Some? ==> IsFirstMatch(ts, d, r.value)
    ensures r.None? ==> !HasDescription(ts, d)
  {
    if ts == [] then None
    else if ts[0].description == d then Some(0)
    else match FindFirst(ts[1..], d)
      case None => None
      case Some(i) => Some(i + 1)
  }

  /** Two lists with the same descriptions, position by position, have the same first matches. */
  lemma SameDescriptionsSameMatch(a: seq<Task>, b: seq<Task>, d: string)
    requires |a| == |b|
    requires forall i :: 0 <= i < |a| ==> a[i].description == b[i].description
    ensures forall i :: IsFirstMatch(a, d, i) <==> IsFirstMatch(b, d, i)
  {
  }

  function MarkedDone(t: Task, today: string): Task {
    t.(status := Completed, completedDate := today)
  }

  function Renamed(t: Task, text: string): Task {
    t.(description := text)
  }

  /**
   * The loop in `mark_complete`: the first task described `d` becomes
   * Completed on `today`; every other task is left as it was.
   */
  function CompleteFirst(ts: seq<Task>, d: string, today: string): (r: seq<Task>)
    ensures |r| == |ts|
    ensures forall i :: 0 <= i < |ts| ==>
      r[i] == if IsFirstMatch(ts, d, i) then MarkedDone(ts[i], today) else ts[i]
  {
    match FindFirst(ts, d)
    case None => ts
    case Some(i) => ts[i := MarkedDone(ts[i], today)]
  }

  /** The write in `edit_task`: the first task described `d` gets description `text`; nothing else changes. */
  function EditFirst(ts: seq<Task>, d: string, text: string): (r: seq<Task>)
    ensures |r| == |ts|
    ensures forall i :: 0 <= i < |ts| ==>
      r[i] == if IsFirstMatch(ts, d, i) then Renamed(ts[i], text) else ts[i]
  {
    match FindFirst(ts, d)
    case None => ts
    case Some(i) => ts[i := Renamed(ts[i], text)]
  }

  /** Completing or editing when nothing is described `d` leaves the list as it was. */
  lemma NoMatchNoChange(ts: seq<Task>, d: string, today: string, text: string)
    requires !HasDescription(ts, d)
    ensures CompleteFirst(ts, d, today) == ts
    ensures EditFirst(ts, d, text) == ts
  {
    assert forall i :: !IsFirstMatch(ts, d, i);
  }

  /**
   * Completing the same selection again only refreshes the completion date:
   * the second call wins, and the status stays Completed.
   */
  lemma CompleteTwice(ts: seq<Task>, d: string, first: string, second: string)
    ensures CompleteFirst(CompleteFirst(ts, d, first), d, second) == CompleteFirst(ts, d, second)
  {
    var once := CompleteFirst(ts, d, first);
    SameDescriptionsSameMatch(once, ts, d);
  }

  /** Removal in `delete_task`: every task described `d`, not just the first. */
  function Without(ts: seq<Task>, d: string): (r: seq<Task>)
    ensures forall i :: 0 <= i < |r| ==> r[i].description != d && r[i] in ts
    ensures |r| == |ts| - Count(ts, DescriptionIs(d))
  {
    CountSplit(ts, DescriptionIs(d), DescriptionIsNot(d));
    Filter(ts, DescriptionIsNot(d))
  }

  /**
   * Deleting keeps the other tasks in order, drops every task described `d`
   * and shortens the list by the number of such tasks.
   */
  lemma DeleteRemovesAllMatches(ts: seq<Task>, d: string)
    ensures IsSubsequence(Without(ts, d), ts)
    ensures !HasDescription(Without(ts, d), d)
    ensures |Without(ts, d)| == |ts| - Count(ts, DescriptionIs(d))
    ensures forall t: Task :: t.description != d ==> multiset(Without(ts, d))[t] == multiset(ts)[t]
  {
    FilterIsSubsequence(ts, DescriptionIsNot(d));
    FilterMultiset(ts, DescriptionIsNot(d));
    CountSplit(ts, DescriptionIs(d), DescriptionIsNot(d));
    var r := Without(ts, d);
    assert forall i :: 0 <= i < |r| ==> DescriptionIsNot(d)(r[i]);
  }

  /** The list `clear_completed` keeps: every task that is not Completed. */
  function WithoutCompleted(ts: seq<Task>): (r: seq<Task>)
    ensures forall i :: 0 <= i < |r| ==> r[i].status != Completed && r[i] in ts
    ensures |r| == |ts| - Count(ts, StatusIs(Completed))
  {
    CountSplit(ts, StatusIs(Completed), StatusIsNot(Completed));
    Filter(ts, StatusIsNot(Completed))
  }

  /**
   * Clearing keeps exactly the tasks that are not Completed, in order; the
   * number it reports is the number of Completed tasks; and a second clear
   * right after finds none.
   */
  lemma ClearRemovesCompleted(ts: seq<Task>)
    ensures IsSubsequence(WithoutCompleted(ts), ts)
    ensures forall t: Task :: multiset(WithoutCompleted(ts))[t] == if t.status == Completed then 0 else multiset(ts)[t]
    ensures |ts| - |WithoutCompleted(ts)| == Count(ts, StatusIs(Completed))
    ensures Count(WithoutCompleted(ts), StatusIs(Completed)) == 0
    ensures WithoutCompleted(WithoutCompleted(ts)) == WithoutCompleted(ts)
  {
    var r := WithoutCompleted(ts);
    FilterIsSubsequence(ts, StatusIsNot(Completed));
    FilterMultiset(ts, StatusIsNot(Completed));
    CountSplit(ts, StatusIs(Completed), StatusIsNot(Completed));
    CountSplit(r, StatusIs(Completed), StatusIsNot(Completed));
    FilterAll(r, StatusIsNot(Completed));
  }

  // ---------------------------------------------------------------------
  // The completion-date invariant
  // ---------------------------------------------------------------------

  /** A task has an empty completion date exactly when it is Pending. */
  predicate DatesConsistent(ts: seq<Task>) {
    forall i :: 0 <= i < |ts| ==> (ts[i].completedDate == "" <==> ts[i].status == Pending)
  }

  /** The record `add_task` appends. */
  function NewTask(ts: seq<Task>, text: string, priority: string, today: string): (t: Task)
    ensures t.id == |ts| + 1
    ensures t.description == text && t.priority == priority && t.createdDate == today
    ensures t.status == Pending && t.completedDate == ""
  {
    Task(|ts| + 1, text, priority, Pending, today, "")
  }

  /**
   * Descriptions written by adding and by editing are stripped texts, so
   * they are their own strip.
   */
  lemma StoredDescriptionsAreStripped(ts: seq<Task>, entry: string, priority: string, today: string, d: string)
    ensures var t := NewTask(ts, Strip(entry), priority, today); Strip(t.description) == t.description
    ensures forall i :: IsFirstMatch(ts, d, i) ==>
      var r := EditFirst(ts, d, Strip(entry)); Strip(r[i].description) == r[i].description
  {
    StripIdempotent(entry);
  }

  /** Appending the new Pending task keeps the completion-date invariant. */
  lemma AddKeepsDatesConsistent(ts: seq<Task>, text: string, priority: string, today: string)
    requires DatesConsistent(ts)
    ensures DatesConsistent(ts + [NewTask(ts, text, priority, today)])
  {
  }

  /** Completing keeps the invariant, the date string being never empty. */
  lemma CompleteKeepsDatesConsistent(ts: seq<Task>, d: string, today: string)
    requires DatesConsistent(ts) && today != ""
    ensures DatesConsistent(CompleteFirst(ts, d, today))
  {
  }

  /** Editing touches only the description, so it keeps the invariant. */
  lemma EditKeepsDatesConsistent(ts: seq<Task>, d: string, text: string)
    requires DatesConsistent(ts)
    ensures DatesConsistent(EditFirst(ts, d, text))
  {
  }

  /** Deleting and clearing only drop tasks, so they keep the invariant. */
  lemma FilterKeepsDatesConsistent(ts: seq<Task>, keep: Task -> bool)
    requires DatesConsistent(ts)
    ensures DatesConsistent(Filter(ts, keep))
  {
    var r := Filter(ts, keep);
    forall i | 0 <= i < |r| ensures r[i].completedDate == "" <==> r[i].status == Pending {
      assert r[i] in ts;
    }
  }

  // ---------------------------------------------------------------------
  // The displayed list (refresh_task_list)
  // ---------------------------------------------------------------------

  /** The filter-combobox stage: status filters, "X Priority" filters, or everything. */
  function ByFilter(ts: seq<Task>, filter: string): (r: seq<Task>)
    ensures |r| <= |ts|
    ensures forall i :: 0 <= i < |r| ==> r[i] in ts && Admits(filter, r[i])
  {
    if filter == "Pending" then Filter(ts, StatusIs(Pending))
    else if filter == "Completed" then Filter(ts, StatusIs(Completed))
    else if EndsWith(filter, "Priority") then Filter(ts, PriorityIs(FirstWord(filter)))
    else ts
  }

  /** The tasks shown for a filter and a search text, in list order. */
  function View(ts: seq<Task>, filter: string, search: string): (r: seq<Task>)
    ensures |r| <= |ts|
    ensures forall i :: 0 <= i < |r| ==> r[i] in ts && Admits(filter, r[i])
    ensures Lower(search) != [] ==> forall i :: 0 <= i < |r| ==> Contains(Lower(r[i].description), Lower(search))
  {
    var needle := Lower(search);
    var stage := ByFilter(ts, filter);
    if needle != [] then
      var r := Filter(stage, DescriptionContains(needle));
      assert forall i :: 0 <= i < |r| ==> r[i] in stage;
      r
    else stage
  }

  /** Whether the filter value lets a task through. */
  predicate Admits(filter: string, t: Task) {
    if filter == "Pending" then t.status == Pending
    else if filter == "Completed" then t.status == Completed
    else if EndsWith(filter, "Priority") then t.priority == FirstWord(filter)
    else true
  }

  /** Whether a task is shown: admitted by the filter and, for a non-empty search, matching it case-insensitively. */
  ghost predicate Shown(filter: string, search: string, t: Task) {
    Admits(filter, t) && (Lower(search) == [] || exists k: nat :: OccursAt(Lower(t.description), Lower(search), k))
  }

  ghost function ShownBy(filter: string, search: string): Task -> bool { (t: Task) => Shown(filter, search, t) }

  /** The staged view is a single filter by `Shown`. */
  lemma ViewIsFilter(ts: seq<Task>, filter: string, search: string)
    ensures View(ts, filter, search) == Filter(ts, ShownBy(filter, search))
  {
    var needle := Lower(search);
    var admit := (t: Task) => Admits(filter, t);
    var stage := ByFilter(ts, filter);
    assert stage == Filter(ts, admit) by {
      if filter == "Pending" {
        FilterCongruent(ts, StatusIs(Pending), admit);
      } else if filter == "Completed" {
        FilterCongruent(ts, StatusIs(Completed), admit);
      } else if EndsWith(filter, "Priority") {
        FilterCongruent(ts, PriorityIs(FirstWord(filter)), admit);
      } else {
        FilterAll(ts, admit);
      }
    }
    forall i | 0 <= i < |ts| ensures DescriptionContains(needle)(ts[i]) <==> exists k: nat :: OccursAt(Lower(ts[i].description), needle, k) {
      ContainsIffOccurs(Lower(ts[i].description), needle);
    }
    if needle != [] {
      FilterFilter(ts, admit, DescriptionContains(needle));
      FilterCongruent(ts, Both(admit, DescriptionContains(needle)), ShownBy(filter, search));
    } else {
      FilterCongruent(ts, admit, ShownBy(filter, search));
    }
  }

  /**
   * The displayed list is an order-preserving subsequence of the tasks that
   * holds every shown task as often as the list does, and no other task.
   */
  lemma ViewContents(ts: seq<Task>, filter: string, search: string)
    ensures IsSubsequence(View(ts, filter, search), ts)
    ensures forall t :: multiset(View(ts, filter, search))[t] == if Shown(filter, search, t) then multiset(ts)[t] else 0
  {
    ViewIsFilter(ts, filter, search);
    FilterIsSubsequence(ts, ShownBy(filter, search));
    FilterMultiset(ts, ShownBy(filter, search));
  }

  /** A filter "X Priority", for a single word X, admits the tasks of priority X whatever their status. */
  lemma PriorityFilter(word: string, t: Task)
    requires word != [] && forall i :: 0 <= i < |word| ==> !IsSpace(word[i])
    ensures Admits(word + " Priority", t) <==> t.priority == word
  {
    var filter := word + " Priority";
    assert filter[|filter| - |"Priority"|..] == "Priority";
    assert TrimStart(filter) == filter;
    TakeWordUpTo(filter, |word|);
    assert filter[..|word|] == word;
    assert filter != "Pending" && filter != "Completed" by {
      assert filter[|filter| - 1] == 'y';
    }
  }

  /** The status entries of the filter combobox: "All" admits everything, "Pending" and "Completed" test the status. */
  lemma StatusFilters(t: Task)
    ensures Admits("All", t)
    ensures Admits("Pending", t) <==> t.status == Pending
    ensures Admits("Completed", t) <==> t.status == Completed
  {
    assert !EndsWith("All", "Priority");
  }

  /** With filter "All" and no search text the whole list is shown, in order. */
  lemma ViewAllIsEverything(ts: seq<Task>)
    ensures View(ts, "All", "") == ts
  {
    assert !EndsWith("All", "Priority");
  }

  // ---------------------------------------------------------------------
  // Row tags and statistics
  // ---------------------------------------------------------------------

  /** The Treeview tag that colours a row. */
  datatype RowTag = CompletedTag | HighTag | MediumTag | LowTag

  /** A Completed task is grey whatever its priority; otherwise the colour follows the priority, anything unknown showing as low. */
  function TagOf(t: Task): (tag: RowTag)
    ensures tag == CompletedTag <==> t.status == Completed
    ensures tag == HighTag <==> t.status != Completed && t.priority == "High"
    ensures tag == MediumTag <==> t.status != Completed && t.priority == "Medium"
    ensures tag == LowTag <==> t.status != Completed && t.priority != "High" && t.priority != "Medium"
  {
    if t.status == Completed then CompletedTag
    else if t.priority == "High" then HighTag
    else if t.priority == "Medium" then MediumTag
    else LowTag
  }

  /** One displayed Treeview row: the five columns and the tag. */
  datatype Row = Row(description: string, priority: string, status: string, created: string, completed: string, tag: RowTag)

  /** The row shows the task's own fields, and its tag is decided by the status and priority columns it shows. */
  function RowOf(t: Task): (r: Row)
    ensures r.description == t.description && r.priority == t.priority && r.status == t.status
    ensures r.created == t.createdDate && r.completed == t.completedDate
    ensures r.tag == CompletedTag <==> r.status == Completed
    ensures r.tag == HighTag <==> r.status != Completed && r.priority == "High"
    ensures r.tag == MediumTag <==> r.status != Completed && r.priority == "Medium"
  {
    Row(t.description, t.priority, t.status, t.createdDate, t.completedDate, TagOf(t))
  }

  /** The statistics label and progress bar. */
  datatype Stats = Stats(total: nat, pending: nat, completed: nat, progressMaximum: nat, progressValue: nat)

  /**
   * Total, pending and completed counts, and the progress bar's range:
   * pending + completed = total, completed is the number of Completed tasks,
   * the bar's maximum is the total (1 for an empty list) and its value is
   * the completed count.
   */
  function Statistics(ts: seq<Task>): (s: Stats)
    ensures s.total == |ts| && s.pending + s.completed == s.total
    ensures s.completed == |Filter(ts, StatusIs(Completed))|
    ensures 1 <= s.progressMaximum && s.progressValue <= s.progressMaximum
    ensures s.total > 0 ==> s.progressMaximum == s.total
    ensures s.total == 0 ==> s.progressMaximum == 1
    ensures s.progressValue == s.completed
  {
    var total := |ts|;
    var completed := Count(ts, StatusIs(Completed));
    CountSplit(ts, StatusIs(Completed), StatusIsNot(Completed));
    Stats(total, total - completed, completed, if total > 0 then total else 1, completed)
  }

  /** When every status is Pending or Completed, the pending count is the length of the "Pending" view. */
  lemma PendingCountMatchesView(ts: seq<Task>)
    requires forall i :: 0 <= i < |ts| ==> ts[i].status == Pending || ts[i].status == Completed
    ensures Statistics(ts).pending == |View(ts, "Pending", "")|
  {
    CountSplit(ts, StatusIs(Completed), StatusIsNot(Completed));
    FilterCongruent(ts, StatusIsNot(Completed), StatusIs(Pending));
  }

  /** Ids are the list length plus one, so an add after a delete can reuse an id still in the list. */
  lemma AddAfterDeleteReusesId()
    ensures var ts := [Task(1, "a", "High", Pending, "2024-01-01", ""), Task(2, "b", "Low", Pending, "2024-01-01", "")];
      var after := Without(ts, "a");
      var added := after + [NewTask(after, "c", "Medium", "2024-01-02")];
      |added| == 2 && added[0].id == added[1].id == 2
  {
    var ts := [Task(1, "a", "High", Pending, "2024-01-01", ""), Task(2, "b", "Low", Pending, "2024-01-01", "")];
    var keep := DescriptionIsNot("a");
    assert ts[1..] == [ts[1]] && [ts[1]][1..] == [];
    assert !keep(ts[0]) && keep(ts[1]);
    assert Filter([ts[1]], keep) == [ts[1]] + Filter([], keep);
    assert Without(ts, "a") == Filter([ts[1]], keep);
  }
}
