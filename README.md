# Tasklist in Dafny

A model of the in-memory task list of the Tasklist desktop widget: a
borderless, always-on-top window with a title, a vertical stack of task rows
and a text field that appends new rows. Each row is a label with a text field
stacked over it (click the label to edit, Enter or focus loss to close the
field) and a colour that says whether the task is future (white), current
(yellow) or done (light green). A row's menu reorders the row one step up or
down, deletes it, or sets its colour.

The model has two modules.

- `Children` (children.dfy) is the list of rows, a pure value. It gives the
  list operations the callbacks use with the semantics of a JavaFX observable
  list (`indexOf` by identity, `remove(int)` and `add(int, E)` that throw
  `IndexOutOfBoundsException` out of range, `remove(Object)` that drops the
  first occurrence), the specifications of the "up", "down" and "delete"
  actions, a reference meaning for each (a swap of two positions; keeping
  every other row in order), and the lemmas that tie them together.
- `TasklistApp` (tasklist.dfy) holds the widget state as classes: `Task` (a
  row: label text, field text, field mode, colour status), `Title` (the title
  bar's label and field) and `TaskList` (the rows in display order, the
  new-entry field's text and the title). Each callback of the source is a
  method whose `modifies` clause names the one object it changes and whose
  `ensures` gives the new state; the list methods run the same `indexOf`,
  `remove(index)` and `add(index ± 1, task)` steps as the source and are
  proved equal to the `Children` specifications. A module `Session` replays
  a short session against the contracts.

Rows are objects, so row identity is object identity, as with `indexOf` on
JavaFX nodes. Each row's and the title's `Valid()` says the label shows the
field's text, as the text listener guarantees. `TaskList.Valid()` says that
no row object appears twice and that every row and the title are valid.
Every `TaskList` method keeps it, and so does an edit of one row or of the
title, since that edit keeps the object's own `Valid()`.

Every menu action looks total, but in the code "down" on a row that is no
longer in a non-empty list passes the guard
`index < size - 1` with index -1, and `remove(-1)` throws before the list
changes. `Children.MoveDown` returns that exception as
`Err(IndexOutOfBounds(-1))` and `TaskList.Down` leaves the rows as they
were. A deleted row's menu can no longer be opened, so the window never
takes this path.

## Model

| member | source | states |
|---|---|---|
| Children.IndexOf | src/main/java/se/llbit/tasklist/Tasklist.java:122 | -1 exactly when the row is absent; otherwise a position holding the row with no earlier occurrence |
| Children.RemoveAt | src/main/java/se/llbit/tasklist/Tasklist.java:124 | succeeds exactly for a valid position, else the out-of-bounds error for that index; the result is one shorter and shifts the later rows left |
| Children.InsertAt | src/main/java/se/llbit/tasklist/Tasklist.java:125 | succeeds exactly for positions up to the length, else the out-of-bounds error; the row lands at the index and the later rows shift right |
| Children.MoveUp | src/main/java/se/llbit/tasklist/Tasklist.java:121-127 | no change for the first row or an absent row; otherwise the row and its predecessor trade places and every other position keeps its row |
| Children.MoveDown | src/main/java/se/llbit/tasklist/Tasklist.java:128-134 | fails with index -1 exactly when the row is absent from a non-empty list; no change for the last row or an empty list; otherwise the row and its successor trade places and every other position keeps its row |
| Children.Delete | src/main/java/se/llbit/tasklist/Tasklist.java:135 | an absent row leaves the list unchanged; a present one makes the list exactly one shorter |
| Children.Without | src/main/java/se/llbit/tasklist/Tasklist.java:135 | reference meaning of deletion: the row no longer occurs and every other row stays |
| Children.Replay | src/main/java/se/llbit/tasklist/Tasklist.java:121-134 | the list after a series of "up" and "down" clicks, where a "down" that throws leaves the list as it was and the next click goes on: it keeps the length and keeps rows distinct |
| Children.RemoveInsertBelow | src/main/java/se/llbit/tasklist/Tasklist.java:122-126 | `remove(i)` then `add(i - 1, row)` both succeed and equal swapping positions i - 1 and i |
| Children.RemoveInsertAbove | src/main/java/se/llbit/tasklist/Tasklist.java:129-133 | `remove(i)` then `add(i + 1, row)` both succeed and equal swapping positions i and i + 1 |
| Children.SwapPermutes | src/main/java/se/llbit/tasklist/Tasklist.java:124-125 | a swap keeps the multiset of rows |
| Children.SwapKeepsDistinct | src/main/java/se/llbit/tasklist/Tasklist.java:131-132 | a swap keeps rows pairwise distinct |
| Children.SwapTwice | src/main/java/se/llbit/tasklist/Tasklist.java:131-132 | swapping the same two positions again restores the list |
| Children.MovesPermute | src/main/java/se/llbit/tasklist/Tasklist.java:121-134 | "up" and a successful "down" keep the multiset of rows |
| Children.MovesKeepDistinct | src/main/java/se/llbit/tasklist/Tasklist.java:121-134 | "up" and a successful "down" keep rows pairwise distinct |
| Children.IndexOfAt | src/main/java/se/llbit/tasklist/Tasklist.java:129 | `indexOf` returns the first position holding the row |
| Children.DistinctIndexOf | src/main/java/se/llbit/tasklist/Tasklist.java:122 | in a list without duplicates `indexOf` finds each row where it stands |
| Children.UpThenDown | src/main/java/se/llbit/tasklist/Tasklist.java:121-134 | "up" on a row that is not first, then "down" on it, restores the list |
| Children.DownThenUp | src/main/java/se/llbit/tasklist/Tasklist.java:121-134 | in a list without duplicates, "down" on a row that is not last succeeds and "up" on it afterwards restores the list |
| Children.ReplayPermutes | src/main/java/se/llbit/tasklist/Tasklist.java:121-134 | any series of "up" and "down" actions, failed ones included, keeps the length and the multiset of rows |
| Children.WithoutAbsent | src/main/java/se/llbit/tasklist/Tasklist.java:135 | removing a row that does not occur leaves the list as it is |
| Children.DeleteIsWithout | src/main/java/se/llbit/tasklist/Tasklist.java:135 | in a list without duplicates "delete" drops exactly that row and keeps the others in order |
| Children.DeleteBehindHead | src/main/java/se/llbit/tasklist/Tasklist.java:135 | deleting a row other than the first keeps the first row in front of the rest deleted |
| Children.DeleteRemovesOne | src/main/java/se/llbit/tasklist/Tasklist.java:135 | deleting a present row removes exactly one copy from the multiset of rows |
| Children.DeleteKeepsDistinct | src/main/java/se/llbit/tasklist/Tasklist.java:135 | deleting keeps rows distinct and the row is gone afterwards |
| Children.RemoveAtKeepsDistinct | src/main/java/se/llbit/tasklist/Tasklist.java:124 | removing any one position keeps the other rows pairwise distinct |
| Children.DeleteIdempotent | src/main/java/se/llbit/tasklist/Tasklist.java:135 | in a list without duplicates, deleting twice equals deleting once |
| Children.AppendKeepsDistinct | src/main/java/se/llbit/tasklist/Tasklist.java:155 | appending a row not yet in the list keeps rows distinct |
| TasklistApp.Task.constructor | src/main/java/se/llbit/tasklist/Tasklist.java:93-101 | a new row shows the submitted text, its field is hidden, and its colour is future (white, line 145) |
| TasklistApp.Task.EditText | src/main/java/se/llbit/tasklist/Tasklist.java:102-103 | the label takes the field's new text; mode and colour unchanged; no other object changes |
| TasklistApp.Task.ClickLabel | src/main/java/se/llbit/tasklist/Tasklist.java:148-153 | a still primary click opens the field; any other click changes nothing; text and colour unchanged |
| TasklistApp.Task.SubmitEditor | src/main/java/se/llbit/tasklist/Tasklist.java:95 | Enter hides the field; text and colour unchanged |
| TasklistApp.Task.EditorFocusChanged | src/main/java/se/llbit/tasklist/Tasklist.java:96-100 | losing focus hides the field, gaining it changes nothing; text and colour unchanged |
| TasklistApp.Task.SetStatus | src/main/java/se/llbit/tasklist/Tasklist.java:118-120 | only the row's colour changes: not its text, its mode, its position or any other row |
| TasklistApp.Title.constructor | src/main/java/se/llbit/tasklist/Tasklist.java:211-213 | the title shows its initial text with the field hidden |
| TasklistApp.Title.EditText | src/main/java/se/llbit/tasklist/Tasklist.java:229-230 | the title label takes the field's new text; mode unchanged |
| TasklistApp.Title.Click | src/main/java/se/llbit/tasklist/Tasklist.java:217-222 | a still primary click opens the title's field; any other click changes nothing |
| TasklistApp.Title.SubmitEditor | src/main/java/se/llbit/tasklist/Tasklist.java:223 | Enter hides the title's field; text unchanged |
| TasklistApp.Title.EditorFocusChanged | src/main/java/se/llbit/tasklist/Tasklist.java:224-235 | both focus listeners together: losing focus hides the field, gaining it changes nothing |
| TasklistApp.TaskList.constructor | src/main/java/se/llbit/tasklist/Tasklist.java:80-162 | no rows, an empty entry field, and a fresh title reading "TODO" |
| TasklistApp.TaskList.TypeEntry | src/main/java/se/llbit/tasklist/Tasklist.java:85-87 | the entry field holds the typed text; the rows are unchanged |
| TasklistApp.TaskList.SubmitEntry | src/main/java/se/llbit/tasklist/Tasklist.java:86-157 | empty text changes nothing; otherwise one fresh row with that text, white and not being edited, is appended after the unchanged rows and the field is cleared; rows stay distinct |
| TasklistApp.TaskList.Up | src/main/java/se/llbit/tasklist/Tasklist.java:121-127 | the rows become `MoveUp` of the old rows; rows stay distinct; the entry field is unchanged |
| TasklistApp.TaskList.Down | src/main/java/se/llbit/tasklist/Tasklist.java:128-134 | the rows become the result of `MoveDown`, or stay as they were with the out-of-bounds error returned; rows stay distinct |
| TasklistApp.TaskList.Delete | src/main/java/se/llbit/tasklist/Tasklist.java:135 | the rows become `Delete` of the old rows; rows stay distinct |

## Left out

- Scene construction, fonts, paints, padding, background and drop shadow (Tasklist.java:76-83, 143-145, 159-162, 176-194): toolkit styling. Colours are the `Status` values Future, Current and Done.
- Showing the context menus, the hover-revealed "..." and "min" buttons, and showing or hiding the entry field with window focus (lines 113-117, 137-147, 189-191, 241-253): presentation only. The menu items' actions are modelled.
- Window dragging and the autosize listener (lines 164-172, 195-202): floating-point screen and layout arithmetic on values the toolkit computes.
- `requestFocus`, minimize, quit, `main` and `launch` (lines 71-73, 151, 210, 220, 244-246): calls into the windowing system and the application lifecycle. Focus changes enter the model as the `focused` parameter of `EditorFocusChanged`.
- A node's children list refuses a node it already holds. `Children.InsertAt` does not check this: a row is always removed before it is added back, and the rows stay distinct, so the check never fires here.
- Keyboard input is a parameter: `TypeEntry` and `EditText` take the field's new text.
- The exception thrown by "down" is returned as a value. The event loop's report of the exception is not modelled; its carrying on is `Children.Replay`.
