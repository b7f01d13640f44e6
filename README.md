# To-do task store and password generator, modelled in Dafny

This project models two small parts of a collection of Python desktop and
console utilities:

- **The to-do list's task store** (`task1.py`). This is the list of task records kept by the
  Tkinter to-do application. Each record is `{id, description, priority, status,
  created_date, completed_date}`. Five buttons change the list: Add, Complete, Edit,
  Delete and Clear Completed. Three read-only parts sit beside them:
  - the filtered and searched list shown in the Treeview;
  - each row's colour tag;
  - the statistics label and its progress bar.
- **The password generator** (`task3.py`): its table of character sets by complexity level,
  the generator, and the checks its console front end makes on the requested length and level.

Module layout:

- `wrappers.dfy` (`Wrappers`): the `Option` type. It stands for "no row selected" and
  "dialog cancelled".
- `text.dfy` (`Text`): the Python string operations the store uses, on ASCII. These are
  `str.strip()`, `str.lower()`, the substring test `in`, `str.endswith` and `str.split()[0]`.
- `tasks.dfy` (`Tasks`): the `Task` record and the pure list transformations. The source
  writes these as list comprehensions, `next(...)` searches and counts. The lemmas about
  them are here too.
- `store.dfy` (`TodoStore`): the class `TodoApp` holding `tasks: seq<Task>`, with one method
  per button. Window inputs become parameters:
  - the entry text;
  - the priority combobox value;
  - the selected row's description, or `None` when no row is selected;
  - the edit dialog's answer, or `None` when it is cancelled;
  - the filter and search boxes;
  - `today`, the date string that `datetime.now()` would give.

  Each method returns the status-line message as a `Notice`.
- `password.dfy` (`Password`): the character sets, the generator and the request check.
  - Randomness is a caller-supplied stream `rolls: nat -> nat`.
  - Draw number `k` picks `s[rolls(k) % |s|]`. The modulo is the model's abstraction of
    picking an index below `len(s)`. CPython itself draws the index by rejection sampling on
    random bits, and which index comes out is not part of any property proved here.
  - The shuffle is the Fisher-Yates pass that CPython's `random.shuffle` runs. It works in
    place on an array and uses the same stream.

  The proved properties hold for every stream.

A cleaner design would select tasks by id and keep ids unique. The model follows the code as
written:

- Tasks are selected by description text, not by id.
- Completing and editing act on the first task with that description.
- Deleting removes every task with that description.
- Completing with no matching task changes nothing and still shows the success message.
- Editing with a blank or cancelled answer fails silently.
- Ids are `len(tasks) + 1`, so they can repeat after a delete. `AddAfterDeleteReusesId`
  shows a case.

## Model

| member | source | states |
|---|---|---|
| `Text.Strip` | task1.py:169 | `str.strip()`. The result is empty exactly when the input is all whitespace. Otherwise it starts and ends with non-whitespace. It is a contiguous slice of the input with only whitespace before and after it. |
| `Text.StripIdempotent` | task1.py:218-219 | Stripping an already stripped text changes nothing. |
| `Text.Lower` | task1.py:252 | `str.lower()` on ASCII keeps the length, maps each uppercase letter to its lowercase letter, leaves every other character as it is, and leaves no uppercase letter. |
| `Text.Contains` | task1.py:265 | The substring test `search in description` holds only when the needle is no longer than the text, and for equal lengths exactly when the two are equal. |
| `Text.EndsWith` | task1.py:260 | `str.endswith` holds exactly when the text is some front part followed by the suffix. |
| `Text.EndsWithConcat` | task1.py:260 | Any text built as a front part followed by the suffix passes `endswith`. |
| `Text.TakeWord` | task1.py:261 | The leading word is a prefix of the text, holds no whitespace, and ends at the first whitespace or at the end of the text. |
| `Text.ContainsIffOccurs` | task1.py:264-265 | The left-to-right scan for `search in description` succeeds exactly when the needle occurs at some position of the text. |
| `Text.FirstWord` | task1.py:260-261 | `split()[0]`: the word is a prefix of the text after its leading whitespace, holds no whitespace, and ends at the next whitespace or at the end. It is non-empty when the text is not all whitespace. |
| `Text.TakeWordUpTo` | task1.py:261 | When the first whitespace is at position n, the first word is the first n characters. |
| `Tasks.Filter` | task1.py:256-265 | A comprehension `[t for t in ts if keep(t)]`. Its length is the number of kept tasks, and every element comes from the list and passes the test. |
| `Tasks.Count` | task1.py:290 | `sum(1 for t in ts if ...)` is at most the length. It is 0 exactly when no task passes the test, and the length exactly when every task passes. |
| `Tasks.FilterIsSubsequence` | task1.py:256-265 | A filtered list keeps its elements in the original order. |
| `Tasks.FilterMultiset` | task1.py:256-265 | A filter keeps every occurrence of each task that passes and no occurrence of any other. |
| `Tasks.FilterFilter` | task1.py:256-265 | Filtering by status or priority and then by search text is one filter by both conditions. |
| `Tasks.FilterCongruent` | task1.py:256-265 | Two tests that agree on every task of the list give the same filtered list. |
| `Tasks.FilterAll` | task1.py:254 | A test that every task passes keeps the whole list. |
| `Tasks.CountSplit` | task1.py:289-291 | Every task is counted by a test or by its negation, so the two counts add up to the total. |
| `Tasks.FindFirst` | task1.py:213-215 | `next(...)` over the tasks: it returns the position of the first task with the description, or nothing exactly when no task has that description. |
| `Tasks.SameDescriptionsSameMatch` | task1.py:196-197 | Lists that agree on descriptions position by position have the same first match. |
| `Tasks.CompleteFirst` | task1.py:196-200 | The length is unchanged. The first task with the selected description becomes Completed with `completed_date = today`. Every other task is unchanged. |
| `Tasks.EditFirst` | task1.py:213-219 | The length is unchanged. Only the first task with the selected description changes, and only in its description. |
| `Tasks.NoMatchNoChange` | task1.py:196-200 | When no task has the selected description, completing and editing leave the list as it was. |
| `Tasks.CompleteTwice` | task1.py:196-200 | Completing the same selection twice is the same as completing it once with the second date. A repeat only refreshes the date. |
| `Tasks.Without` | task1.py:232 | The list `delete_task` keeps holds only tasks of the old list with another description. Its length is the old length minus the number of tasks with the selected description. |
| `Tasks.DeleteRemovesAllMatches` | task1.py:232 | Deleting keeps the other tasks in order. No task with the description is left. The length drops by the number of such tasks. Every task with another description keeps its multiplicity. |
| `Tasks.WithoutCompleted` | task1.py:239 | The list `clear_completed` keeps holds only tasks of the old list that are not Completed. Its length is the old length minus the number of Completed tasks. |
| `Tasks.ClearRemovesCompleted` | task1.py:238-240 | The kept list holds exactly the tasks that are not Completed, in order. The number removed is the number of Completed tasks. A second clear removes none and changes nothing. |
| `Tasks.NewTask` | task1.py:174-181 | The appended record has id = old length + 1, the given description and priority, created date = today, status Pending and an empty completion date. `AddTask` appends exactly this record. |
| `Tasks.StoredDescriptionsAreStripped` | task1.py:169-176 | A description written by adding, or by editing at the first match, is its own strip. |
| `Tasks.AddKeepsDatesConsistent` | task1.py:174-182 | Appending the new task keeps the invariant "completion date empty exactly when Pending". |
| `Tasks.CompleteKeepsDatesConsistent` | task1.py:196-200 | Completing keeps the invariant, given a non-empty date string. |
| `Tasks.EditKeepsDatesConsistent` | task1.py:219 | Editing keeps the invariant. |
| `Tasks.FilterKeepsDatesConsistent` | task1.py:232-239 | Deleting and clearing keep the invariant. |
| `Tasks.ByFilter` | task1.py:256-262 | The filter-box stage keeps at most the whole list, and every task it keeps is from the list and is admitted by the filter value. |
| `Tasks.View` | task1.py:252-265 | Every displayed task is from the list and is admitted by the filter. For a non-empty search, its lower-cased description contains the lower-cased search text. |
| `Tasks.ViewIsFilter` | task1.py:252-265 | The staged view (filter box, then a non-empty lower-cased search) is one filter by `Shown`. `Shown` means the filter admits the task and, for a non-empty search, the search text occurs in the lower-cased description. |
| `Tasks.ViewContents` | task1.py:252-265 | The displayed list is an order-preserving subsequence of the tasks. It holds each shown task as often as the list does, and no other task. |
| `Tasks.PriorityFilter` | task1.py:260-262 | A filter "X Priority", for a one-word X, admits exactly the tasks whose priority is X, whatever their status. This covers "High Priority", "Medium Priority" and "Low Priority". |
| `Tasks.StatusFilters` | task1.py:256-259 | "All" admits every task. "Pending" and "Completed" admit exactly the tasks with that status. |
| `Tasks.ViewAllIsEverything` | task1.py:252-265 | Filter "All" with an empty search shows the whole list in order. |
| `Tasks.TagOf` | task1.py:268-276 | A Completed task is tagged completed whatever its priority. Otherwise a task is tagged high or medium by its priority, and any other priority is tagged low. |
| `Tasks.RowOf` | task1.py:267-279 | A row shows the task's five fields in column order. Its tag is completed exactly when the status column reads Completed, otherwise high or medium exactly when the priority column says so. |
| `Tasks.Statistics` | task1.py:288-294 | Total is the list length, and pending + completed = total. Completed is the number of Completed tasks. The progress maximum is the total, or 1 for an empty list. The progress value is the completed count and never exceeds the maximum. |
| `Tasks.PendingCountMatchesView` | task1.py:289-291 | When every status is Pending or Completed, the pending count equals the length of the "Pending" view. |
| `Tasks.AddAfterDeleteReusesId` | task1.py:175 | Deleting the task with id 1 of [1, 2] and then adding gives two tasks with id 2. |
| `TodoStore.TodoApp.constructor` | task1.py:304-310 | The store starts with the saved list, or with an empty list when the file is missing or cannot be parsed. |
| `TodoStore.TodoApp.AddTask` | task1.py:168-186 | A blank entry leaves the list unchanged and asks for a task. Otherwise exactly one record is appended, with the stripped text, the chosen priority, id = old length + 1, Pending, created today and no completion date. The invariant is kept. |
| `TodoStore.TodoApp.MarkComplete` | task1.py:188-203 | The loop with `break` gives `CompleteFirst` of the old list. With no selection the list is unchanged and a warning is shown. The invariant is kept. |
| `TodoStore.TodoApp.EditTask` | task1.py:205-222 | With a selection, a matching task and a non-blank answer, the result is `EditFirst` with the stripped answer. In every other case the list is unchanged: no selection gives a warning, the rest give no message. |
| `TodoStore.TodoApp.DeleteTask` | task1.py:224-235 | With a selection, the list becomes `Without` the selected description. Without one, it is unchanged. |
| `TodoStore.TodoApp.ClearCompleted` | task1.py:237-246 | The list becomes the non-Completed tasks. The reported count is the old number of Completed tasks, and the message depends on whether it is 0. |
| `TodoStore.TodoApp.RefreshTaskList` | task1.py:248-286 | There is one row per task of `View`, in order, with its five columns and tag. The statistics are those of the whole list. |
| `Password.CharacterSet` | task3.py:4-12 | The contract states only that a level's set is never empty. The function body is the definition, transcribing the table. The proved facts about the sets are in `CharacterSetsNested` and `FullSetIsAllCategories`. |
| `Password.CharacterSetsNested` | task3.py:6-12 | Each level's set is a prefix of the next, with sizes 26, 52, 62 and 88. Levels outside 1-4 yield the level-4 set. |
| `Password.FullSetIsAllCategories` | task3.py:10 | A character is in the level-4 set exactly when it is a lowercase letter, an uppercase letter, a digit or one of the listed symbols. |
| `Password.Choice` | task3.py:20-23 | `random.choice(s)` always returns a character of `s`. |
| `Password.PlainPassword` | task3.py:34 | At levels other than 4 the password has `max(length, 0)` characters, all from the level's set. |
| `Password.Shuffle` | task3.py:31 | The in-place shuffle leaves a permutation of the list. |
| `Password.GeneratePassword` | task3.py:13-34 | The length is `max(length, 4)` at level 4 and `max(length, 0)` otherwise. Every character is from the level's set. At level 4 there is at least one lowercase letter, one uppercase letter, one digit and one symbol, even after the shuffle. |
| `Password.CheckRequest` | task3.py:55-75 | The front end generates exactly when 4 <= length <= 128 and the level is 1-4. A length below 4 is rejected as too short, a length above 128 as too long, and, for a length in range, a level outside 1-4 as an invalid complexity. Its check that level 4 has at least 4 characters can never fire. |
| `Password.AcceptedLengthIsExact` | task3.py:55-78 | For an accepted request the password has exactly the requested length. |

## Left out

- Tkinter presentation is not modelled: window setup, styles, light and dark themes,
  `toggle_theme`, widgets, the tag colours, progress-bar widget writes, and `update_status`
  with its timer. Rows, tags, statistics and the message shown are modelled as values.
- Saving after each change is not modelled, because it is file I/O (`save_tasks`, JSON
  dump). Loading is reduced to the three outcomes the constructor takes: missing,
  unreadable, or a parsed list.
- `datetime.now()` is the `today` parameter.
- `str.strip` and `str.lower` are modelled on ASCII only. Unicode whitespace and case
  mapping are left out.
- Tkinter may convert the selected row's `values[0]` to a number. This is left out: the
  selection is the description text.
- Task records are values. The source mutates dicts in place, but no dict is shared
  between two list entries, so nothing is lost.
- The priority combobox is read-only, but any string is accepted as a priority. The tag
  and filter contracts cover every string.
- All of `task2.py` is left out: a floating-point calculator and console loops.
- The distribution and quality of `random.choice` and `random.shuffle` are not modelled.
  Only their structural effect is.
- The console loop of the password `main` is left out: prompts, printing, parsing with its
  `ValueError` path, the "generate another" question and `display_complexity_options`.
  Only the acceptance checks are modelled, as `CheckRequest`.
- Password.Shuffle: the contract states only that the result is a permutation, not which
  permutation a given stream produces.
- Password.GeneratePassword: the contract states length, membership and category coverage,
  not the exact password a given stream produces.
