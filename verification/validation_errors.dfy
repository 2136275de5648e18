/** Serialisation of schema issues into the `errors` list and the summary
    `message` of a 400 envelope. */
module ValidationErrors {
  import opened Text
  import opened Schema

  /** One serialised issue: the dot-joined path and the rule's message. */
  datatype FieldError = FieldError(path: string, message: string)

  const PathSeparator := "."
  const MessageSeparator := ", "

  /** `issues.map(issue => ({path: issue.path.join("."), message: issue.message}))` */
  function Serialize(issues: seq<Issue>): (r: seq<FieldError>)
    ensures |r| == |issues|
    ensures forall k :: 0 <= k < |r| ==>
      r[k].path == Join(issues[k].path, PathSeparator) && r[k].message == issues[k].message
  {
    if |issues| == 0 then []
    else [FieldError(Join(issues[0].path, PathSeparator), issues[0].message)] + Serialize(issues[1..])
  }

  /** The messages of the serialised errors, in order. */
  function Messages(errors: seq<FieldError>): (r: seq<string>)
    ensures |r| == |errors|
    ensures forall k :: 0 <= k < |r| ==> r[k] == errors[k].message
  {
    if |errors| == 0 then [] else [errors[0].message] + Messages(errors[1..])
  }

  /** The top-level message of a validation failure. */
  function Summary(errors: seq<FieldError>): string
  {
    Join(Messages(errors), MessageSeparator)
  }

  /** The summary holds the issue messages in the order the schema reported
      them, each at its offset and separated by ", ", and nothing else. */
  lemma SummaryListsIssueMessages(issues: seq<Issue>)
    ensures var msgs := Messages(Serialize(issues));
      && |msgs| == |issues|
      && (forall k :: 0 <= k < |issues| ==> msgs[k] == issues[k].message)
      && IsJoinOf(Summary(Serialize(issues)), msgs, MessageSeparator)
  {
    JoinIsJoinOf(Messages(Serialize(issues)), MessageSeparator);
  }

  /** A flat path (one field name) serialises to that field name. */
  lemma FlatPathIsFieldName(issue: Issue, field: string)
    requires issue.path == [field]
    ensures Serialize([issue]) == [FieldError(field, issue.message)]
  {
  }

  /** With a single issue the summary is exactly its message. */
  lemma SingleIssueSummary(issue: Issue)
    ensures Summary(Serialize([issue])) == issue.message
  {
  }
}
