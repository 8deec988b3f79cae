/**
 * The ticket records the script receives from the issue tracker's search
 * endpoint (exercise.py:34-48). Every key of the JSON object may be absent;
 * the script reads them with `dict.get`, so each is an `Option` here.
 */
module Tickets {
  import opened Wrappers

  /** The `fields` object of a ticket: only the two fields the script asks for. */
  datatype Fields = Fields(summary: Option<string>, description: Option<string>)

  /** One entry of the search result's `issues` list. */
  datatype Issue = Issue(key: Option<string>, id: Option<int>, fields: Option<Fields>)

  /** `issue.get("fields", {}).get("description", "")` */
  function DescriptionOf(issue: Issue): (r: string)
    ensures issue.fields.Some? && issue.fields.value.description.Some? ==> r == issue.fields.value.description.value
    ensures issue.fields.None? || issue.fields.value.description.None? ==> r == ""
  {
    match issue.fields
    case None => ""
    case Some(f) => f.description.GetOr("")
  }
}
