/** The widget state of the task-list window and the event callbacks that
    change it: the new-entry field that appends rows, each row's inline
    editor and colour menu, the row menu's "up", "down" and "delete", and
    the title's inline editor. */
module TasklistApp {
  import opened Children

  /** A row's text colour: white, yellow and light green in the window. */
  datatype Status = Future | Current | Done

  /** Whether the text field stacked over a label is hidden or visible. */
  datatype Mode = Display | Editing

  /** The mouse button an event reports. */
  datatype MouseButton = NoButton | Primary | Middle | Secondary | Back | Forward

  /** Text shown in the title bar when the window opens. */
  const InitialTitle: string := "TODO"

  /** One task row: a label over which a text field is stacked, and the
      label's colour. */
  class Task {
    var labelText: string
    var editorText: string
    var mode: Mode
    var status: Status

    /** The label mirrors the text field: a listener copies every change. */
    ghost predicate Valid()
      reads this
    {
      labelText == editorText
    }

    /** A row as the entry callback builds it: label and field hold the
        submitted text, the field is hidden and the label is white. */
    constructor (text: string)
      ensures Valid()
      ensures labelText == text && mode == Display && status == Future
    {
      editorText := text;
      labelText := text;
      mode := Display;
      status := Future;
    }

    /** A change to the field's text, copied to the label. */
    method EditText(t: string)
      requires Valid()
      modifies this
      ensures Valid()
      ensures labelText == t && mode == old(mode) && status == old(status)
    {
      editorText := t;
      labelText := t;
    }

    /** A click on the label: a primary click with no drag in between opens
        the field; any other click leaves the row as it is. */
    method ClickLabel(button: MouseButton, stillSincePress: bool)
      requires Valid()
      modifies this
      ensures Valid()
      ensures mode == (if stillSincePress && button == Primary then Editing else old(mode))
      ensures labelText == old(labelText) && status == old(status)
    {
      if stillSincePress && button == Primary {
        mode := Editing;
      }
    }

    /** Enter in the field hides it; the text stays. */
    method SubmitEditor()
      requires Valid()
      modifies this
      ensures Valid()
      ensures mode == Display && labelText == old(labelText) && status == old(status)
    {
      mode := Display;
    }

    /** The field gains or loses focus; losing it hides the field. */
    method EditorFocusChanged(focused: bool)
      requires Valid()
      modifies this
      ensures Valid()
      ensures mode == (if focused then old(mode) else Display)
      ensures labelText == old(labelText) && status == old(status)
    {
      if !focused {
        mode := Display;
      }
    }

    /** The "future", "current" and "done" menu items: only the colour
        changes. */
    method SetStatus(s: Status)
      requires Valid()
      modifies this
      ensures Valid()
      ensures status == s && labelText == old(labelText) && mode == old(mode)
    {
      status := s;
    }
  }

  /** The title bar: a label over which a text field is stacked, with the
      same click-to-edit behaviour as a row's. */
  class Title {
    var labelText: string
    var editorText: string
    var mode: Mode

    ghost predicate Valid()
      reads this
    {
      labelText == editorText
    }

    constructor (titleText: string)
      ensures Valid() && labelText == titleText && mode == Display
    {
      editorText := titleText;
      labelText := titleText;
      mode := Display;
    }

    method EditText(t: string)
      requires Valid()
      modifies this
      ensures Valid() && labelText == t && mode == old(mode)
    {
      editorText := t;
      labelText := t;
    }

    method Click(button: MouseButton, stillSincePress: bool)
      requires Valid()
      modifies this
      ensures Valid() && labelText == old(labelText)
      ensures mode == (if stillSincePress && button == Primary then Editing else old(mode))
    {
      if stillSincePress && button == Primary {
        mode := Editing;
      }
    }

    method SubmitEditor()
      requires Valid()
      modifies this
      ensures Valid() && labelText == old(labelText) && mode == Display
    {
      mode := Display;
    }

    /** Two identical focus listeners are registered on the title's field;
        both run on every focus change, and running the second changes
        nothing more. */
    method EditorFocusChanged(focused: bool)
      requires Valid()
      modifies this
      ensures Valid() && labelText == old(labelText)
      ensures mode == (if focused then old(mode) else Display)
    {
      if !focused {
        mode := Display;
      }
      if !focused {
        mode := Display;
      }
    }
  }

  /** The window's content: the rows in display order, the new-entry
      field's text and the title. */
  class TaskList {
    var rows: seq<Task>
    var entry: string
    const title: Title

    /** No row object appears twice among the children, and every label in
        the window shows its field's text. */
    ghost predicate Valid()
      reads this, rows, title
    {
      Distinct(rows) && title.Valid() && forall r :: r in rows ==> r.Valid()
    }

    constructor ()
      ensures Valid() && rows == [] && entry == []
      ensures fresh(title) && title.labelText == InitialTitle && title.mode == Display
    {
      rows := [];
      entry := [];
      title := new Title(InitialTitle);
    }

    /** Typing in the new-entry field. */
    method TypeEntry(t: string)
      requires Valid()
      modifies this
      ensures Valid() && entry == t && rows == old(rows)
    {
      entry := t;
    }

    /** Enter in the new-entry field. Empty text adds nothing and changes
        nothing; otherwise the field is cleared and one fresh row with that
        text, white and not being edited, is appended after the others. */
    method SubmitEntry() returns (added: Task?)
      requires Valid()
      modifies this
      ensures Valid()
      ensures old(entry) == [] ==> added == null && rows == old(rows) && entry == old(entry)
      ensures old(entry) != [] ==>
        added != null && fresh(added) && added.Valid() &&
        added.labelText == old(entry) && added.status == Future && added.mode == Display &&
        rows == old(rows) + [added] && entry == []
    {
      var text := entry;
      added := null;
      if text != [] {
        entry := [];
        var task := new Task(text);
        AppendKeepsDistinct(rows, task);
        rows := rows + [task];
        added := task;
      }
    }

    /** The "up" menu item of row `task`. */
    method Up(task: Task)
      requires Valid()
      modifies this
      ensures Valid() && entry == old(entry)
      ensures rows == MoveUp(old(rows), task)
    {
      var index := IndexOf(rows, task);
      if index > 0 {
        RemoveInsertBelow(rows, index);
        MovesKeepDistinct(rows, task);
        rows := RemoveAt(rows, index).value;
        rows := InsertAt(rows, index - 1, task).value;
      }
    }

    /** The "down" menu item of row `task`; the exception `remove(-1)`
        throws for a row no longer in a non-empty list is returned. */
    method Down(task: Task) returns (outcome: Result<()>)
      requires Valid()
      modifies this
      ensures Valid() && entry == old(entry)
      ensures MoveDown(old(rows), task).Ok? ==> outcome == Ok(()) && rows == MoveDown(old(rows), task).value
      ensures MoveDown(old(rows), task).Err? ==> outcome == Err(MoveDown(old(rows), task).error) && rows == old(rows)
    {
      outcome := Ok(());
      var index := IndexOf(rows, task);
      if index < |rows| - 1 {
        var removed := RemoveAt(rows, index);
        if removed.Err? {
          assert MoveDown(rows, task) == Err(IndexOutOfBounds(index));
          outcome := Err(removed.error);
          return;
        }
        RemoveInsertAbove(rows, index);
        MovesKeepDistinct(rows, task);
        MovesPermute(rows, task);
        ghost var next := Swap(rows, index, index + 1);
        assert MoveDown(rows, task) == Ok(next);
        assert forall r :: r in next ==> r in multiset(rows);
        rows := InsertAt(removed.value, index + 1, task).value;
        assert rows == next;
      } else {
        assert MoveDown(rows, task) == Ok(rows);
      }
    }

    /** The "delete" menu item of row `task`. */
    method Delete(task: Task)
      requires Valid()
      modifies this
      ensures Valid() && entry == old(entry)
      ensures rows == Children.Delete(old(rows), task)
    {
      DeleteKeepsDistinct(rows, task);
      var index := IndexOf(rows, task);
      if index >= 0 {
        rows := RemoveAt(rows, index).value;
      }
    }
  }
}

/** Short sessions with the window, checked against the contracts of the
    callbacks alone. */
module Session {
  import opened Children
  import opened TasklistApp

  /** Empty text adds nothing; "Buy milk" adds one white row. */
  method Entries()
  {
    var w := new TaskList();
    var none := w.SubmitEntry();
    assert none == null && w.rows == [];
    w.TypeEntry("Buy milk");
    var milk := w.SubmitEntry();
    assert milk != null && w.rows == [milk] && w.entry == [];
    assert milk.labelText == "Buy milk" && milk.status == Future;
  }

  /** Reordering two rows, then recolouring one of them. */
  method Reorder(w: TaskList, milk: Task, call: Task)
    requires w.Valid() && w.rows == [milk, call]
    modifies w, call
  {
    assert IndexOf(w.rows, milk) == 0;
    w.Up(milk);
    assert w.rows == [milk, call];
    assert IndexOf(w.rows, call) == 1;
    w.Up(call);
    assert w.rows == [call, milk];
    assert IndexOf(w.rows, milk) == 1;
    var last := w.Down(milk);
    assert last == Ok(()) && w.rows == [call, milk];
    var text := call.labelText;
    call.SetStatus(Current);
    call.SetStatus(Done);
    assert call.status == Done && call.labelText == text && w.rows == [call, milk];
    assert w.Valid();
  }

  /** Deleting a row twice, then asking to move it down. */
  method Deletes(w: TaskList, milk: Task, call: Task)
    requires w.Valid() && w.rows == [call, milk]
    modifies w
  {
    assert w.rows[0] != w.rows[1];
    assert IndexOf(w.rows, milk) == 1;
    w.Delete(milk);
    assert w.rows == [call];
    w.Delete(milk);
    assert w.rows == [call];
    var gone := w.Down(milk);
    assert gone == Err(IndexOutOfBounds(-1)) && w.rows == [call];
  }
}
