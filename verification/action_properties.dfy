/** Properties that relate several action calls, or an action call to the
    schema and store rules it rests on. */
module ActionProperties {
  import opened Text
  import opened Schema
  import opened ValidationErrors
  import opened UserModel
  import opened Actions

  /** The 400 envelope lists one error per issue, in the schema's order,
      and its message is those messages joined by ", " and nothing else. */
  lemma {:induction false} RejectionReportsEveryIssue(s: Store, data: UserData, isEmail: string -> bool, now: int, fault: Fault)
    requires !Accepts(data, isEmail)
    ensures var o := AddUser(s, data, isEmail, now, fault);
      var issues := Issues(data, isEmail);
      && !o.envelope.success && o.envelope.status == 400
      && o.envelope.body.ErrorsBody?
      && |o.envelope.body.errors| == |issues|
      && (forall k :: 0 <= k < |issues| ==>
            o.envelope.body.errors[k] == FieldError(Join(issues[k].path, "."), issues[k].message))
      && IsJoinOf(o.envelope.message, Messages(o.envelope.body.errors), ", ")
  {
    var o := AddUser(s, data, isEmail, now, fault);
    var issues := Issues(data, isEmail);
    assert o.envelope.status == 400;
    assert o.envelope.body == ErrorsBody(Serialize(issues));
    ErrorsReportIssues(issues, o.envelope.body.errors, o.envelope.message);
  }

  /** The serialised errors and summary of an issue list, in the literal
      separators of the source. */
  lemma ErrorsReportIssues(issues: seq<Issue>, errors: seq<FieldError>, message: string)
    requires errors == Serialize(issues) && message == Summary(errors)
    ensures |errors| == |issues|
    ensures forall k :: 0 <= k < |issues| ==> errors[k] == FieldError(Join(issues[k].path, "."), issues[k].message)
    ensures IsJoinOf(message, Messages(errors), ", ")
  {
    SummaryListsIssueMessages(issues);
  }

  /** A name holding anything other than letters and whitespace (a digit, a
      symbol) is rejected with an error under the path "name", by both
      mutating actions. */
  lemma BadNameCharacterReported(s: Store, id: Id, data: UserData, isEmail: string -> bool, now: int, fault: Fault, i: nat)
    requires i < |data.name| && !IsNameChar(data.name[i])
    ensures var add := AddUser(s, data, isEmail, now, fault);
      var edit := EditUser(s, id, data, isEmail, now, fault);
      && add.envelope.status == 400 && edit.envelope.status == 400
      && add.envelope.body == edit.envelope.body
      && add.envelope.body.ErrorsBody?
      && exists k :: 0 <= k < |add.envelope.body.errors| && add.envelope.body.errors[k].path == "name"
  {
  }

  /** Deleting the same id twice: the first call removes the record and
      answers 200 with it, the second finds nothing and answers 404. */
  lemma DeleteTwice(s: Store, id: Id)
    requires id in s.users
    ensures var first := DeleteUser(s, id, NoFault);
      var second := DeleteUser(first.store, id, NoFault);
      && first.envelope == Envelope(true, 200, "User deleted successfully", UserBody(s.users[id]))
      && second.envelope == Envelope(false, 404, "User not found", NoBody)
      && second.store == first.store
      && first.revalidated && !second.revalidated
  {
  }

  /** Round trip: after a successful add, listing the collection succeeds and
      yields a record holding exactly the submitted fields. */
  lemma AddThenFetch(s: Store, data: UserData, isEmail: string -> bool, now: int)
    requires Valid(s)
    requires AddUser(s, data, isEmail, now, NoFault).envelope.success
    ensures var added := AddUser(s, data, isEmail, now, NoFault);
      var listed := FetchUsers(added.store, NoFault);
      && listed.envelope.status == 200
      && listed.envelope.body.UsersBody?
      && |listed.envelope.body.users| == |s.users| + 1
      && exists u :: u in listed.envelope.body.users && Holds(u, data) && u.createdAt == now
  {
    var added := AddUser(s, data, isEmail, now, NoFault);
    var u := added.envelope.body.user;
    assert u.id in added.store.users;
    assert added.store.users[u.id] == u;
  }

  /** Names of one to three characters pass the request schema but not the
      model's `minLength` of 4: adding one is a 500 carrying the model's
      message, while editing an existing record to one succeeds, because an
      update query runs no model validators. */
  lemma ShortNameAcceptedOnlyByEdit(s: Store, id: Id, data: UserData, isEmail: string -> bool, now: int)
    requires Accepts(data, isEmail) && |data.name| < 4
    requires data.email != "" && data.email !in OtherEmails(s, id) && id in s.users
    ensures var added := AddUser(s, data, isEmail, now, NoFault);
      var edited := EditUser(s, id, data, isEmail, now, NoFault);
      && added.envelope.status == 500
      && added.envelope.message == ErrorMessage(ValidationFailed([Violation("name", NameTooShort)]))
      && added.store == s
      && edited.envelope.status == 200
      && |edited.store.users[id].name| < 4
  {
  }

  /** The unique email index: adding a record whose email is already stored
      never succeeds; it is a 500 and the collection keeps one record per email. */
  lemma DuplicateEmailRejected(s: Store, data: UserData, isEmail: string -> bool, now: int, fault: Fault, other: Id)
    requires Accepts(data, isEmail)
    requires other in s.users && s.users[other].email == data.email
    ensures var o := AddUser(s, data, isEmail, now, fault);
      o.envelope.status == 500 && !o.envelope.success && o.store == s
  {
  }

  /** Every action keeps the collection invariant, including the unique email
      index, and only successful mutations revalidate the listing. */
  lemma ActionsPreserveValid(s: Store, id: Id, data: UserData, isEmail: string -> bool, now: int, fault: Fault)
    requires Valid(s)
    ensures Valid(AddUser(s, data, isEmail, now, fault).store)
    ensures Valid(EditUser(s, id, data, isEmail, now, fault).store)
    ensures Valid(DeleteUser(s, id, fault).store)
    ensures Valid(FetchUsers(s, fault).store)
    ensures !FetchUsers(s, fault).revalidated
    ensures AddUser(s, data, isEmail, now, fault).revalidated ==> AddUser(s, data, isEmail, now, fault).envelope.status == 201
  {
  }

  /** The empty collection: listing it is the 404 "No users found" failure
      with an empty `users` array, not a success. */
  lemma FetchEmptyIsNotFound()
    ensures FetchUsers(Empty(), NoFault).envelope == Envelope(false, 404, "No users found", UsersBody([]))
  {
  }
}
