/** The task record of the to-do script, the overdue test, and the two
    whole-list replacements the row handlers perform: mark-done (a `map` over
    the list by id) and delete (a `filter` over the list by id). */
module Tasks {
  import opened Options
  import opened Dates
  import opened Seqs

  datatype Status = Pending | Done

  /** A task as the script stores it; `dueDate` is `yyyy-mm-dd` or empty. */
  datatype Task = Task(id: string, text: string, dueDate: string, status: Status)

  /** The status text the script prints, `'Pending'` or `'Done'`. */
  function StatusText(s: Status): (r: string) {
    match s
    case Pending => "Pending"
    case Done => "Done"
  }

  /** isOverdue: a task with no due date, an invalid due date, or status Done is
      never overdue; otherwise its due day must be before today's. */
  function IsOverdue(t: Task, today: Date): (r: bool)
    ensures r ==> t.status == Pending && t.dueDate != "" && ParseIsoDate(t.dueDate).Some?
  {
    if t.dueDate == "" then false
    else match ParseIsoDate(t.dueDate)
      case None => false
      case Some(due) => DateLess(due, today) && t.status == Pending
  }

  /** Overdue is exactly: Pending, with a due date that parses, whose day number
      (the midnight time value the script compares) is below today's. */
  lemma IsOverdueIff(t: Task, today: Date)
    requires IsValidDate(today)
    ensures IsOverdue(t, today) <==>
      t.status == Pending && ParseIsoDate(t.dueDate).Some?
      && DayOrdinal(ParseIsoDate(t.dueDate).value) < DayOrdinal(today)
  {
    match ParseIsoDate(t.dueDate)
    case None =>
    case Some(due) => DateLessIff(due, today);
  }

  // ---------------------------------------------------------------------------
  // Mark done: every task with the id is replaced by a copy whose status is
  // Done; all other tasks are kept as they are.

  function MarkIfId(id: string): (f: Task -> Task) {
    (t: Task) => if t.id == id then t.(status := Done) else t
  }

  /** The list after marking: same length, each task keeps its id, and a task is
      Done exactly when it carries the id or already was. */
  function MarkDoneById(ts: seq<Task>, id: string): (r: seq<Task>)
    ensures |r| == |ts|
    ensures forall i :: 0 <= i < |ts| ==>
      r[i].id == ts[i].id && (r[i].status == Done <==> ts[i].id == id || ts[i].status == Done)
  {
    MapAt(ts, MarkIfId(id));
    Map(ts, MarkIfId(id))
  }

  /** The list keeps its length and order; a task with the id becomes Done with
      everything else about it kept; every other task is as before. */
  lemma MarkDoneByIdAt(ts: seq<Task>, id: string)
    ensures var r := MarkDoneById(ts, id);
      |r| == |ts|
      && forall i :: 0 <= i < |ts| ==>
           r[i].id == ts[i].id && r[i].text == ts[i].text && r[i].dueDate == ts[i].dueDate
           && (ts[i].id == id ==> r[i].status == Done)
           && (ts[i].id != id ==> r[i] == ts[i])
  {
    MapAt(ts, MarkIfId(id));
  }

  /** Marking the same id done twice is the same as marking it once. */
  lemma MarkDoneByIdIdempotent(ts: seq<Task>, id: string)
    ensures MarkDoneById(MarkDoneById(ts, id), id) == MarkDoneById(ts, id)
  {
    var r := MarkDoneById(ts, id);
    MarkDoneByIdAt(ts, id);
    MarkDoneByIdAt(r, id);
    MapAt(ts, MarkIfId(id));
    MapAt(r, MarkIfId(id));
  }

  /** An id no task carries leaves the list unchanged. */
  lemma MarkDoneByIdAbsent(ts: seq<Task>, id: string)
    requires forall i :: 0 <= i < |ts| ==> ts[i].id != id
    ensures MarkDoneById(ts, id) == ts
  {
    MarkDoneByIdAt(ts, id);
  }

  // ---------------------------------------------------------------------------
  // Delete: the list keeps only the tasks whose id differs from the given one.

  function HasId(id: string): (p: Task -> bool) {
    (t: Task) => t.id == id
  }

  function HasOtherId(id: string): (p: Task -> bool) {
    (t: Task) => t.id != id
  }

  /** The list after deleting: no longer than before, and no task carries the id. */
  function RemoveById(ts: seq<Task>, id: string): (r: seq<Task>)
    ensures |r| <= |ts|
    ensures forall i :: 0 <= i < |r| ==> r[i].id != id
  {
    Filter(ts, HasOtherId(id))
  }

  /** Delete removes exactly the tasks carrying the id: the rest keep their
      relative order and multiplicity, and the list shrinks by the number of
      tasks that carried it. */
  lemma RemoveByIdSpec(ts: seq<Task>, id: string)
    ensures var r := RemoveById(ts, id);
      IsSubsequence(r, ts)
      && (forall i :: 0 <= i < |r| ==> r[i].id != id)
      && (forall t :: multiset(r)[t] == if t.id == id then 0 else multiset(ts)[t])
      && |r| == |ts| - |Filter(ts, HasId(id))|
  {
    FilterIsSubsequence(ts, HasOtherId(id));
    FilterMultiset(ts, HasOtherId(id));
    FilterSplit(ts, HasOtherId(id), HasId(id));
  }

  /** Deleting an id no task carries leaves the list unchanged. */
  lemma RemoveByIdAbsent(ts: seq<Task>, id: string)
    requires forall i :: 0 <= i < |ts| ==> ts[i].id != id
    ensures RemoveById(ts, id) == ts
  {
    FilterKeepsAll(ts, HasOtherId(id));
  }

  /** With exactly one task carrying the id, the list shrinks by exactly one. */
  lemma RemoveByIdUnique(ts: seq<Task>, id: string, k: nat)
    requires k < |ts| && ts[k].id == id
    requires forall i :: 0 <= i < |ts| && i != k ==> ts[i].id != id
    ensures |RemoveById(ts, id)| == |ts| - 1
  {
    RemoveByIdSpec(ts, id);
    OneWithId(ts, id, k);
  }

  lemma {:induction false} OneWithId(ts: seq<Task>, id: string, k: nat)
    requires k < |ts| && ts[k].id == id
    requires forall i :: 0 <= i < |ts| && i != k ==> ts[i].id != id
    ensures |Filter(ts, HasId(id))| == 1
  {
    if k == 0 {
      FilterEmptyIff(ts[1..], HasId(id));
    } else {
      OneWithId(ts[1..], id, k - 1);
    }
  }
}
