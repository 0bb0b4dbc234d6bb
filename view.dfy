/** The view computation of renderTasks, without the document: which tasks the
    current filter shows, and the row view-model each shown task becomes. */
module View {
  import opened Dates
  import opened Seqs
  import opened Tasks
  import opened Text

  const NoTasksMessage: string := "Tidak Ada Tugas"
  const OverdueSuffix: string := " (Overdue)"

  /** The filter callback: `all` and any unknown key keep every task, and a
      task kept as overdue is a Pending one. */
  function Matches(t: Task, key: string, today: Date): (r: bool)
    ensures !IsKnownNarrowingKey(key) ==> r
    ensures key == "overdue" && r ==> t.status == Pending
  {
    if key == "all" then true
    else if key == "pending" then t.status == Pending
    else if key == "done" then t.status == Done
    else if key == "overdue" then IsOverdue(t, today)
    else true
  }

  function Matcher(key: string, today: Date): (p: Task -> bool) {
    (t: Task) => Matches(t, key, today)
  }

  /** The tasks the current filter key shows: no more than the list holds, and
      each of them passes the callback. */
  function FilterView(ts: seq<Task>, key: string, today: Date): (r: seq<Task>)
    ensures |r| <= |ts|
    ensures forall i :: 0 <= i < |r| ==> Matches(r[i], key, today)
  {
    Filter(ts, Matcher(key, today))
  }

  predicate IsKnownNarrowingKey(key: string) {
    key == "pending" || key == "done" || key == "overdue"
  }

  /** One table row: the placeholder of an empty view, or a task's cells. */
  datatype Row =
    | Placeholder(message: string)
    | TaskRow(id: string, textHtml: string, completed: bool, dueText: string,
              statusText: string, doneControl: bool, deleteControl: bool)

  predicate HasControls(r: Row) {
    r.TaskRow? && (r.doneControl || r.deleteControl)
  }

  predicate EndsWith(s: string, suffix: string) {
    |suffix| <= |s| && s[|s| - |suffix|..] == suffix
  }

  /** The cells of a task's row: the task's own id, its text escaped so that it
      holds no raw markup and decodes back to the text, and a due-date text that
      reads back to the parsed due date. */
  function RowOf(t: Task, today: Date): (r: Row)
    ensures r.TaskRow? && r.id == t.id
    ensures NoMarkup(r.textHtml) && Unescape(r.textHtml) == t.text
    ensures ParseDisplayDate(r.dueText) == ParseIsoDate(t.dueDate)
  {
    EscapeHtmlNoMarkup(t.text);
    UnescapeEscapeHtml(t.text);
    FormatDisplayDateRoundTrip(t.dueDate);
    TaskRow(t.id, EscapeHtml(t.text), t.status == Done, FormatDisplayDate(t.dueDate),
            StatusText(t.status) + (if IsOverdue(t, today) then OverdueSuffix else ""),
            t.status == Pending, true)
  }

  function RowMaker(today: Date): (f: Task -> Row) {
    (t: Task) => RowOf(t, today)
  }

  /** renderTasks as a value: the placeholder row alone when nothing is shown,
      otherwise one row per shown task, in list order. The table is never empty,
      and its first row is the placeholder exactly when nothing is shown. */
  function ComputeView(ts: seq<Task>, key: string, today: Date): (r: seq<Row>)
    ensures |r| == if FilterView(ts, key, today) == [] then 1 else |FilterView(ts, key, today)|
    ensures r[0].Placeholder? <==> FilterView(ts, key, today) == []
  {
    var shown := FilterView(ts, key, today);
    if shown == [] then [Placeholder(NoTasksMessage)] else Map(shown, RowMaker(today))
  }

  // ---------------------------------------------------------------------------

  /** The shown tasks are a subsequence of the list in insertion order: the
      whole list for `all` and unknown keys, and exactly (with multiplicity) the
      Pending, the Done or the overdue tasks for the other three keys. */
  lemma FilterViewSpec(ts: seq<Task>, key: string, today: Date)
    ensures var r := FilterView(ts, key, today);
      IsSubsequence(r, ts)
      && (!IsKnownNarrowingKey(key) ==> r == ts)
      && (key == "pending" ==>
            forall t :: multiset(r)[t] == if t.status == Pending then multiset(ts)[t] else 0)
      && (key == "done" ==>
            forall t :: multiset(r)[t] == if t.status == Done then multiset(ts)[t] else 0)
      && (key == "overdue" ==>
            forall t :: multiset(r)[t] == if IsOverdue(t, today) then multiset(ts)[t] else 0)
  {
    FilterIsSubsequence(ts, Matcher(key, today));
    FilterMultiset(ts, Matcher(key, today));
    if !IsKnownNarrowingKey(key) {
      FilterKeepsAll(ts, Matcher(key, today));
    }
  }

  /** The overdue view is the overdue part of the pending view. */
  lemma OverdueWithinPending(ts: seq<Task>, today: Date)
    ensures FilterView(FilterView(ts, "pending", today), "overdue", today)
         == FilterView(ts, "overdue", today)
  {
    FilterNarrow(ts, Matcher("pending", today), Matcher("overdue", today));
  }

  /** Every task is in exactly one of the pending and done views: each copy of
      a task is counted once between them, and their lengths add up. */
  lemma PendingDoneSplit(ts: seq<Task>, today: Date)
    ensures forall t :: multiset(FilterView(ts, "pending", today))[t]
                        + multiset(FilterView(ts, "done", today))[t] == multiset(ts)[t]
    ensures |FilterView(ts, "pending", today)| + |FilterView(ts, "done", today)| == |ts|
  {
    FilterMultiset(ts, Matcher("pending", today));
    FilterMultiset(ts, Matcher("done", today));
    FilterSplit(ts, Matcher("pending", today), Matcher("done", today));
  }

  /** What a task's row shows: the text escaped (no raw markup, and it decodes
      back to the text), struck through exactly when Done, the due date as the
      display text that reads back to the parsed date, the status text with the
      overdue suffix exactly when overdue, a done control exactly when Pending,
      and always a delete control. */
  lemma RowOfSpec(t: Task, today: Date)
    ensures var row := RowOf(t, today);
      row.TaskRow? && row.id == t.id
      && NoMarkup(row.textHtml) && Unescape(row.textHtml) == t.text
      && (row.completed <==> t.status == Done)
      && ParseDisplayDate(row.dueText) == ParseIsoDate(t.dueDate)
      && (row.dueText == "-" <==> ParseIsoDate(t.dueDate).None?)
      && |row.statusText| == |StatusText(t.status)| + (if IsOverdue(t, today) then |OverdueSuffix| else 0)
      && row.statusText[..|StatusText(t.status)|] == StatusText(t.status)
      && (EndsWith(row.statusText, OverdueSuffix) <==> IsOverdue(t, today))
      && (row.doneControl <==> t.status == Pending)
      && row.deleteControl
  {
    var row := RowOf(t, today);
    EscapeHtmlNoMarkup(t.text);
    UnescapeEscapeHtml(t.text);
    FormatDisplayDateRoundTrip(t.dueDate);
    if IsOverdue(t, today) {
      assert row.statusText[|row.statusText| - |OverdueSuffix|..] == OverdueSuffix;
    }
  }

  /** An empty filtered view renders as exactly one placeholder row without
      controls; a non-empty one as one task row per shown task, in order. */
  lemma ComputeViewSpec(ts: seq<Task>, key: string, today: Date)
    ensures var shown, v := FilterView(ts, key, today), ComputeView(ts, key, today);
      (shown == [] <==> v == [Placeholder(NoTasksMessage)])
      && (shown == [] ==> forall i :: 0 <= i < |v| ==> !HasControls(v[i]))
      && (shown != [] ==> |v| == |shown| && forall i :: 0 <= i < |v| ==> v[i] == RowOf(shown[i], today))
  {
    var shown := FilterView(ts, key, today);
    MapAt(shown, RowMaker(today));
    if shown != [] {
      assert ComputeView(ts, key, today)[0].TaskRow?;
    }
  }

  /** The view has a placeholder exactly when no task passes the filter. */
  lemma ComputeViewEmptyIff(ts: seq<Task>, key: string, today: Date)
    ensures ComputeView(ts, key, today) == [Placeholder(NoTasksMessage)]
        <==> forall i :: 0 <= i < |ts| ==> !Matches(ts[i], key, today)
  {
    ComputeViewSpec(ts, key, today);
    FilterEmptyIff(ts, Matcher(key, today));
  }
}
