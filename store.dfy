/**
 * The to-do application's task store: the list of task records and the
 * operations behind the Add, Complete, Edit, Delete and Clear Completed
 * buttons, with the window's inputs (entry text, priority combobox,
 * selected row, edit dialog answer, filter and search boxes, today's date)
 * passed in as parameters.
 */
module TodoStore {
  import opened Text
  import opened Wrappers
  import opened Tasks

  /** What the tasks file held at start-up. */
  datatype Stored = Missing | Unreadable | Loaded(saved: seq<Task>)

  /** The message shown in the status line after an operation. */
  datatype Notice =
    | EnterTaskFirst        // "Please enter a task!"
    | TaskAdded
    | SelectTaskFirst       // no row selected
    | TaskCompleted
    | TaskUpdated
    | TaskDeleted
    | ClearedTasks(count: nat)
    | NoCompletedTasks
    | NoMessage             // edit with no matching task, or a cancelled or blank answer

  class TodoApp {
    var tasks: seq<Task>

    /** Start from the saved list, or from an empty one when the file is missing or cannot be parsed. */
    constructor (stored: Stored)
      ensures tasks == if stored.Loaded? then stored.saved else []
    {
      if stored.Loaded? {
        tasks := stored.saved;
      } else {
        tasks := [];
      }
    }

    /**
     * A blank entry (after stripping) changes nothing; otherwise one Pending
     * task with the stripped text is appended, with id = old length + 1.
     */
    method AddTask(entry: string, priority: string, today: string) returns (notice: Notice)
      modifies this
      ensures Strip(entry) == [] ==> tasks == old(tasks) && notice == EnterTaskFirst
      ensures Strip(entry) != [] ==>
        && notice == TaskAdded
        && tasks == old(tasks) + [NewTask(old(tasks), Strip(entry), priority, today)]
      ensures old(DatesConsistent(tasks)) ==> DatesConsistent(tasks)
    {
      var text := Strip(entry);
      if text == [] {
        return EnterTaskFirst;
      }
      if DatesConsistent(tasks) {
        AddKeepsDatesConsistent(tasks, text, priority, today);
      }
      tasks := tasks + [NewTask(tasks, text, priority, today)];
      notice := TaskAdded;
    }

    /**
     * Marks the first task described like the selected row Completed on
     * `today`. Without a selection nothing changes; with no matching task
     * the list is unchanged but the success message is still shown.
     */
    method MarkComplete(selected: Option<string>, today: string) returns (notice: Notice)
      modifies this
      ensures selected.None? ==> tasks == old(tasks) && notice == SelectTaskFirst
      ensures selected.Some? ==> tasks == CompleteFirst(old(tasks), selected.value, today) && notice == TaskCompleted
      ensures old(DatesConsistent(tasks)) && today != "" ==> DatesConsistent(tasks)
    {
      if selected.None? {
        return SelectTaskFirst;
      }
      var desc := selected.value;
      var i := 0;
      while i < |tasks|
        invariant 0 <= i <= |tasks|
        invariant tasks == old(tasks)
        invariant forall j :: 0 <= j < i ==> tasks[j].description != desc
      {
        if tasks[i].description == desc {
          assert IsFirstMatch(tasks, desc, i);
          tasks := tasks[i := MarkedDone(tasks[i], today)];
          break;
        }
        i := i + 1;
      }
      if !HasDescription(old(tasks), desc) {
        NoMatchNoChange(old(tasks), desc, today, "");
      }
      if DatesConsistent(old(tasks)) && today != "" {
        CompleteKeepsDatesConsistent(old(tasks), desc, today);
      }
      notice := TaskCompleted;
    }

    /**
     * Renames the first task described like the selected row to the stripped
     * dialog answer, provided there is such a task and the answer is neither
     * cancelled nor blank; otherwise nothing changes.
     */
    method EditTask(selected: Option<string>, answer: Option<string>) returns (notice: Notice)
      modifies this
      ensures selected.None? ==> tasks == old(tasks) && notice == SelectTaskFirst
      ensures selected.Some? && HasDescription(old(tasks), selected.value) && answer.Some? && Strip(answer.value) != [] ==>
        && tasks == EditFirst(old(tasks), selected.value, Strip(answer.value)) && notice == TaskUpdated
      ensures selected.Some? && !(HasDescription(old(tasks), selected.value) && answer.Some? && Strip(answer.value) != []) ==>
        tasks == old(tasks) && notice == NoMessage
      ensures old(DatesConsistent(tasks)) ==> DatesConsistent(tasks)
    {
      if selected.None? {
        return SelectTaskFirst;
      }
      var desc := selected.value;
      var found := FindFirst(tasks, desc);
      if found.None? {
        return NoMessage;
      }
      if answer.Some? && Strip(answer.value) != [] {
        var i := found.value;
        if DatesConsistent(tasks) {
          EditKeepsDatesConsistent(tasks, desc, Strip(answer.value));
        }
        tasks := tasks[i := Renamed(tasks[i], Strip(answer.value))];
        notice := TaskUpdated;
      } else {
        notice := NoMessage;
      }
    }

    /** Removes every task described like the selected row, keeping the others in order. */
    method DeleteTask(selected: Option<string>) returns (notice: Notice)
      modifies this
      ensures selected.None? ==> tasks == old(tasks) && notice == SelectTaskFirst
      ensures selected.Some? ==> tasks == Without(old(tasks), selected.value) && notice == TaskDeleted
      ensures old(DatesConsistent(tasks)) ==> DatesConsistent(tasks)
    {
      if selected.None? {
        return SelectTaskFirst;
      }
      if DatesConsistent(tasks) {
        FilterKeepsDatesConsistent(tasks, DescriptionIsNot(selected.value));
      }
      tasks := Without(tasks, selected.value);
      notice := TaskDeleted;
    }

    /** Keeps only the tasks that are not Completed and reports how many were removed. */
    method ClearCompleted() returns (cleared: nat, notice: Notice)
      modifies this
      ensures tasks == WithoutCompleted(old(tasks))
      ensures cleared == Count(old(tasks), StatusIs(Completed))
      ensures notice == if cleared > 0 then ClearedTasks(cleared) else NoCompletedTasks
      ensures old(DatesConsistent(tasks)) ==> DatesConsistent(tasks)
    {
      var before := |tasks|;
      ClearRemovesCompleted(tasks);
      if DatesConsistent(tasks) {
        FilterKeepsDatesConsistent(tasks, StatusIsNot(Completed));
      }
      tasks := WithoutCompleted(tasks);
      cleared := before - |tasks|;
      notice := if cleared > 0 then ClearedTasks(cleared) else NoCompletedTasks;
    }

    /**
     * Rebuilds the displayed rows for the filter and search boxes: one row
     * per shown task, in list order, with its colour tag; and the statistics.
     */
    method RefreshTaskList(filter: string, search: string) returns (rows: seq<Row>, stats: Stats)
      ensures |rows| == |View(tasks, filter, search)|
      ensures forall i :: 0 <= i < |rows| ==> rows[i] == RowOf(View(tasks, filter, search)[i])
      ensures stats == Statistics(tasks)
    {
      var shown := View(tasks, filter, search);
      rows := [];
      for i := 0 to |shown|
        invariant |rows| == i
        invariant forall j :: 0 <= j < i ==> rows[j] == RowOf(shown[j])
      {
        var row := RowOf(shown[i]);
        assert forall j :: 0 <= j < i ==> (rows + [row])[j] == rows[j];
        rows := rows + [row];
      }
      stats := Statistics(tasks);
    }
  }
}
