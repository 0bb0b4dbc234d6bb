/** Two concrete scenarios of the to-do list, stated over the model. */
module Scenarios {
  import opened Options
  import opened Dates
  import opened Text
  import opened Tasks
  import opened View

  lemma ParseExampleDate()
    ensures ParseIsoDate("2020-01-01") == Some(Date(2020, 1, 1))
  {
    var s := "2020-01-01";
    assert s[..4] == "2020";
    assert s[5..7] == "01";
    assert s[8..] == "01";
    assert DecValue("2020") == 2020 by {
      assert "2020"[..3] == "202" && "202"[..2] == "20" && "20"[..1] == "2" && "2"[..0] == "";
    }
    assert DecValue("01") == 1 by {
      assert "01"[..1] == "0" && "0"[..0] == "";
    }
  }

  /** A Pending task due on 2020-01-01, seen on any later day, is overdue. */
  lemma BuyMilkIsOverdue(t: Task, today: Date)
    requires t.status == Pending && t.dueDate == "2020-01-01"
    requires DateLess(Date(2020, 1, 1), today)
    ensures IsOverdue(t, today)
  {
    ParseExampleDate();
  }

  /** An overdue task (such as a Pending task due on 2020-01-01 seen on a later
      day) shows the status `Pending (Overdue)`. */
  lemma OverdueStatusText(t: Task, today: Date)
    requires IsOverdue(t, today)
    ensures RowOf(t, today).statusText == "Pending (Overdue)"
  {
    PendingOverdueText(t.status, true);
  }

  /** The status cell of a Pending task that is overdue. */
  lemma PendingOverdueText(s: Status, overdue: bool)
    requires s == Pending && overdue
    ensures StatusText(s) + (if overdue then OverdueSuffix else "") == "Pending (Overdue)"
  {
  }

  /** An overdue task is shown under `all`, `pending` and `overdue`, and is not
      shown under `done`. */
  lemma OverdueTaskShown(t: Task, today: Date)
    requires IsOverdue(t, today)
    ensures FilterView([t], "all", today) == [t]
    ensures FilterView([t], "pending", today) == [t]
    ensures FilterView([t], "overdue", today) == [t]
    ensures FilterView([t], "done", today) == []
  {
    assert [t][1..] == [];
  }

  /** A script tag is shown as text: its angle brackets become entities. */
  lemma ScriptTagEscaped(text: string)
    requires text == "<script>"
    ensures EscapeHtml(text) == "&lt;script&gt;"
  {
    var word := "script";
    assert text == ['<'] + word + ['>'];
    EscapeTag('<', word, '>');
  }

  /** A tag name between angle brackets: the brackets become entities and the
      name is copied unchanged. */
  lemma EscapeTag(lt: char, name: string, gt: char)
    requires lt == '<' && gt == '>'
    requires forall i :: 0 <= i < |name| ==> !IsSpecial(name[i])
    ensures EscapeHtml([lt] + name + [gt]) == "&lt;" + name + "&gt;"
  {
    EscapeHtmlAppend([lt] + name, [gt]);
    EscapeHtmlAppend([lt], name);
    EscapeHtmlChar(lt);
    EscapeHtmlChar(gt);
    EscapeHtmlPlain(name);
  }
}
