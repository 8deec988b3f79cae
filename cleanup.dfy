/**
 * The driver of exercise.py: `add_to_report` (exercise.py:107-142),
 * `update_description` (exercise.py:76-104) and `main` (exercise.py:145-176).
 * The report file `Jira_Cleanup.csv` is the sequence of rows appended to it;
 * the remote tracker is the sequence of description updates sent to it.
 */
module Cleanup {
  import opened Wrappers
  import opened Tickets
  import opened Pagination
  import Cleaning

  /** One row of the report: the `(key, id, summary)` tuple written by `add_to_report`. */
  datatype Row = Row(key: Option<string>, id: Option<int>, summary: string)

  /** One description update: the ticket key and the new description sent for it. */
  datatype Update = Update(key: Option<string>, description: string)

  /** The row `add_to_report` writes for `issue`; a missing `fields` or `summary` gives an empty summary. */
  function ReportRow(issue: Issue): (r: Row)
    ensures r.key == issue.key && r.id == issue.id
    ensures issue.fields.Some? && issue.fields.value.summary.Some? ==> r.summary == issue.fields.value.summary.value
    ensures issue.fields.None? || issue.fields.value.summary.None? ==> r.summary == ""
  {
    var summary := match issue.fields
      case None => ""
      case Some(f) => f.summary.GetOr("");
    Row(issue.key, issue.id, summary)
  }

  /**
   * The update `main` sends for `issue`: its key and its cleaned
   * description. It is sent whether or not cleaning changed anything.
   */
  function CleanedUpdate(issue: Issue): (r: Update)
    ensures r.key == issue.key
    ensures |r.description| <= |DescriptionOf(issue)|
    ensures r.description == DescriptionOf(issue) <==> !Cleaning.HasMatch(DescriptionOf(issue))
  {
    var description := DescriptionOf(issue);
    Cleaning.CleanUnchangedIff(description);
    Update(issue.key, Cleaning.Clean(description))
  }

  /** One report row per issue, in order. */
  function Rows(issues: seq<Issue>): seq<Row>
  {
    seq(|issues|, k requires 0 <= k < |issues| => ReportRow(issues[k]))
  }

  /** One update per issue, in order. */
  function Updates(issues: seq<Issue>): seq<Update>
  {
    seq(|issues|, k requires 0 <= k < |issues| => CleanedUpdate(issues[k]))
  }

  /** Handling one more issue adds one row and one update at the end. */
  lemma LogsAppend(issues: seq<Issue>, issue: Issue)
    ensures Rows(issues + [issue]) == Rows(issues) + [ReportRow(issue)]
    ensures Updates(issues + [issue]) == Updates(issues) + [CleanedUpdate(issue)]
  {
    assert forall k :: 0 <= k < |issues| ==> (issues + [issue])[k] == issues[k];
  }

  /** What one run changes outside the script: the report file and the tickets' descriptions. */
  class Effects {
    /** The rows of `Jira_Cleanup.csv`, oldest first. */
    var report: seq<Row>
    /** The description updates sent to the tracker, oldest first. */
    var updates: seq<Update>

    /** A run starts from whatever the report file already holds, and has sent nothing. */
    constructor (existing: seq<Row>)
      ensures report == existing && updates == []
    {
      report := existing;
      updates := [];
    }

    /** `add_to_report`: append one row; earlier rows are kept as they are. */
    method AddToReport(issue: Issue)
      modifies this
      ensures report == old(report) + [ReportRow(issue)]
      ensures updates == old(updates)
    {
      report := report + [ReportRow(issue)];
    }

    /** `update_description`: send the new description; the result is `true` whatever the response. */
    method UpdateDescription(key: Option<string>, description: string) returns (ok: bool)
      modifies this
      ensures ok
      ensures updates == old(updates) + [Update(key, description)]
      ensures report == old(report)
    {
      updates := updates + [Update(key, description)];
      ok := true;
    }

    /**
     * `main`: fetch every matching issue, then for each one, in fetch order,
     * append its row to the report and send its cleaned description.
     */
    method Run(server: Server, ghost bound: int)
      requires TotalsBounded(server, bound)
      modifies this
      ensures report == old(report) + Rows(Fetched(server, bound))
      ensures updates == old(updates) + Updates(Fetched(server, bound))
    {
      var results;
      ghost var requested;
      results, requested := QueryJira(server, bound);
      for i := 0 to |results|
        invariant report == old(report) + Rows(results[..i])
        invariant updates == old(updates) + Updates(results[..i])
      {
        assert results[..i + 1] == results[..i] + [results[i]];
        LogsAppend(results[..i], results[i]);
        AddToReport(results[i]);
        var description := DescriptionOf(results[i]);
        var _ := UpdateDescription(results[i].key, Cleaning.Clean(description));
      }
      assert results[..|results|] == results;
    }
  }

  /**
   * A run against a server that answers with one page of two tickets writes
   * exactly two rows and sends exactly two updates, in fetch order.
   */
  method OnePageRun(a: Issue, b: Issue) returns (report: seq<Row>, updates: seq<Update>)
    ensures report == [ReportRow(a), ReportRow(b)]
    ensures updates == [CleanedUpdate(a), CleanedUpdate(b)]
  {
    var server: Server := (o: nat) => Page(Some([a, b]), Some(2));
    assert TotalsBounded(server, 2);
    assert Requests(server, 2, 0) == [0];
    assert Gathered(server, [0]) == [a, b] + Gathered(server, []);
    var effects := new Effects([]);
    effects.Run(server, 2);
    report, updates := effects.report, effects.updates;
  }
}
