/** The script's module-level state (`tasks` and `currentFilter`) as one store
    object, its event handlers as methods, and renderTasks' row loop. */
module Store {
  import opened Options
  import opened Dates
  import opened Seqs
  import opened Text
  import opened Tasks
  import opened View

  datatype AlertKind = Success | Danger

  /** The notification a handler emits (showAlert's message and type). */
  datatype Alert = Alert(message: string, kind: AlertKind)

  const AddedMessage: string := "Task berhasil ditambahkan!"
  /** The message both the done and the delete handlers emit. */
  const DeletedMessage: string := "Task berhasil dihapus!"

  /** The text a task is stored with: trimmed and not empty. */
  ghost predicate IsStoredText(s: string) {
    s != "" && Trim(s) == s
  }

  class TaskStore {
    var tasks: seq<Task>
    var currentFilter: string

    /** Every stored text went through addTask's trim-and-reject step. */
    ghost predicate Valid()
      reads this
    {
      forall i :: 0 <= i < |tasks| ==> IsStoredText(tasks[i].text)
    }

    /** The initial state: no tasks, filter `all`. */
    constructor ()
      ensures Valid() && tasks == [] && currentFilter == "all"
    {
      tasks := [];
      currentFilter := "all";
    }

    /** addTask, with the input field values and the fresh id passed in. Text
        that trims to nothing is ignored; otherwise one Pending task with the
        trimmed text and the given due date is pushed. */
    method AddTask(rawText: string, due: string, newId: string) returns (alert: Option<Alert>)
      requires Valid()
      modifies this
      ensures Valid() && currentFilter == old(currentFilter)
      ensures AllWhitespace(rawText) ==> tasks == old(tasks) && alert == None
      ensures !AllWhitespace(rawText) ==>
        tasks == old(tasks) + [Task(newId, Trim(rawText), due, Pending)]
        && alert == Some(Alert(AddedMessage, Success))
    {
      var text := Trim(rawText);
      TrimEmptyIff(rawText);
      if text == "" {
        return None;
      }
      TrimIdempotent(rawText);
      var dueDate := if due != "" then due else "";
      tasks := tasks + [Task(newId, text, dueDate, Pending)];
      alert := Some(Alert(AddedMessage, Success));
    }

    /** The done button's handler: every task with the id becomes Done. */
    method MarkDone(id: string) returns (alert: Alert)
      requires Valid()
      modifies this
      ensures Valid() && currentFilter == old(currentFilter)
      ensures tasks == MarkDoneById(old(tasks), id)
      ensures alert == Alert(DeletedMessage, Danger)
    {
      MarkDoneByIdAt(tasks, id);
      tasks := MarkDoneById(tasks, id);
      alert := Alert(DeletedMessage, Danger);
    }

    /** The delete button's handler: every task with the id is removed. */
    method Delete(id: string) returns (alert: Alert)
      requires Valid()
      modifies this
      ensures Valid() && currentFilter == old(currentFilter)
      ensures tasks == RemoveById(old(tasks), id)
      ensures alert == Alert(DeletedMessage, Danger)
    {
      FilterMembers(tasks, HasOtherId(id));
      tasks := RemoveById(tasks, id);
      alert := Alert(DeletedMessage, Danger);
    }

    /** The delete-all handler, with the answer to the confirmation passed in;
        it emits no notification. */
    method DeleteAll(confirmed: bool)
      requires Valid()
      modifies this
      ensures Valid() && currentFilter == old(currentFilter)
      ensures tasks == if confirmed then [] else old(tasks)
    {
      if !confirmed {
        return;
      }
      tasks := [];
    }

    /** setFilter's state update: any key is stored as given. */
    method SetFilter(key: string)
      requires Valid()
      modifies this
      ensures Valid()
      ensures tasks == old(tasks) && currentFilter == key
    {
      currentFilter := key;
    }

    /** renderTasks: filter by the current key, then build one row per shown
        task in order, or the placeholder row when none is shown. */
    method Render(today: Date) returns (rows: seq<Row>)
      ensures rows == ComputeView(tasks, currentFilter, today)
    {
      var shown := FilterView(tasks, currentFilter, today);
      if |shown| == 0 {
        return [Placeholder(NoTasksMessage)];
      }
      var makeRow := RowMaker(today);
      rows := [];
      var i := 0;
      while i < |shown|
        invariant 0 <= i <= |shown|
        invariant rows == Map(shown[..i], makeRow)
      {
        MapExtend(shown, i, makeRow);
        rows := rows + [makeRow(shown[i])];
        i := i + 1;
      }
      assert shown[..i] == shown;
    }
  }
}
