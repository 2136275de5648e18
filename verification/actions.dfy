/** The four server actions over the user collection. Each is one atomic
    step from a collection (and its inputs) to a result envelope, the
    collection afterwards, and whether the listing page was revalidated. */
module Actions {
  import opened Text
  import opened Schema
  import opened ValidationErrors
  import opened UserModel

  /** The optional part of an envelope: `user`, `users` or `errors`. */
  datatype Body =
    | NoBody
    | UserBody(user: User)
    | UsersBody(users: seq<User>)
    | ErrorsBody(errors: seq<FieldError>)

  /** `{success, status, message, ...}` as returned to the caller. */
  datatype Envelope = Envelope(success: bool, status: int, message: string, body: Body)

  datatype Outcome = Outcome(envelope: Envelope, store: Store, revalidated: bool)

  const Created := 201
  const OK := 200
  const BadRequest := 400
  const NotFound := 404
  const ServerError := 500

  const UserAdded := "User added successfully"
  const UserUpdated := "User updated successfully"
  const UserDeleted := "User deleted successfully"
  const UsersFetched := "Users fetched successfully"
  const UserNotFound := "User not found"
  const NoUsersFound := "No users found"
  const InternalError := "Internal server error"
  const FetchError := "Error fetching users"
  const DeleteError := "Error deleting user"

  /** `error?.message || fallback`: an empty message falls back. */
  function OrElse(message: string, fallback: string): string
  {
    if message == "" then fallback else message
  }

  /** The envelope of a schema failure: serialised issues and their summary. */
  function Rejection(s: Store, issues: seq<Issue>): Outcome
  {
    var errors := Serialize(issues);
    Outcome(Envelope(false, BadRequest, Summary(errors), ErrorsBody(errors)), s, false)
  }

  /** The envelope of any other error thrown inside the `try`. */
  function Failure(s: Store, e: StoreError, fallback: string): Outcome
  {
    Outcome(Envelope(false, ServerError, OrElse(ErrorMessage(e), fallback), NoBody), s, false)
  }

  /** `addUser(data)` */
  function AddUser(s: Store, data: UserData, isEmail: string -> bool, now: int, fault: Fault): (o: Outcome)
    ensures o.envelope.status in {Created, BadRequest, ServerError}
    ensures o.envelope.success <==> o.envelope.status == Created
    ensures o.revalidated <==> o.envelope.success
    ensures !o.envelope.success ==> o.store == s
    // validation happens first and decides the 400
    ensures o.envelope.status == BadRequest <==> !Accepts(data, isEmail)
    ensures o.envelope.status == BadRequest ==>
      && o.envelope.body == ErrorsBody(Serialize(Issues(data, isEmail)))
      && o.envelope.message == Summary(o.envelope.body.errors)
    // every store-side failure is a 500 with the error's text or the fallback
    ensures o.envelope.status == ServerError <==>
      Accepts(data, isEmail) && (!MeetsModel(data) || fault.Fails? || data.email in Emails(s))
    ensures o.envelope.status == ServerError ==> o.envelope.body == NoBody && o.envelope.message != ""
    ensures o.envelope.status == ServerError && !MeetsModel(data) ==>
      o.envelope.message == ErrorMessage(ValidationFailed(Violations(data)))
    ensures o.envelope.status == ServerError && MeetsModel(data) && fault.Fails? ==>
      o.envelope.message == (if fault.message == "" then InternalError else fault.message)
    ensures o.envelope.status == ServerError && MeetsModel(data) && fault.NoFault? ==>
      o.envelope.message == ErrorMessage(DuplicateEmail(data.email))
    // success: exactly one new record holding the submitted fields
    ensures o.envelope.success ==>
      && o.envelope.message == UserAdded
      && o.envelope.body.UserBody?
      && var u := o.envelope.body.user;
      && Holds(u, data)
      && u.createdAt == now && u.updatedAt == now
      && o.store.users == s.users[u.id := u]
      && (Valid(s) ==> u.id !in s.users && |o.store.users| == |s.users| + 1)
    ensures Valid(s) ==> Valid(o.store)
  {
    match Validate(data, isEmail)
    case Rejected(issues) => Rejection(s, issues)
    case Accepted(d) =>
      match Create(s, d, now, fault)
      case Err(e) =>
        assert !e.RequestFailed? ==> ErrorMessage(e) != "" by {
          if !e.RequestFailed? { ConstraintMessageNonEmpty(e); }
        }
        Failure(s, e, InternalError)
      case Ok(w) =>
        Outcome(Envelope(true, Created, UserAdded, UserBody(w.user)), w.store, true)
  }

  /** `editUser(userId, data)`: the data is validated before the id is looked
      up; the update runs no model validators. */
  function EditUser(s: Store, id: Id, data: UserData, isEmail: string -> bool, now: int, fault: Fault): (o: Outcome)
    ensures o.envelope.status in {OK, BadRequest, NotFound, ServerError}
    ensures o.envelope.success <==> o.envelope.status == OK
    ensures o.revalidated <==> o.envelope.success
    ensures !o.envelope.success ==> o.store == s
    // invalid data is a 400 whether or not the id exists
    ensures o.envelope.status == BadRequest <==> !Accepts(data, isEmail)
    ensures o.envelope.status == BadRequest ==>
      && o.envelope.body == ErrorsBody(Serialize(Issues(data, isEmail)))
      && o.envelope.message == Summary(o.envelope.body.errors)
    ensures o.envelope.status == NotFound <==> Accepts(data, isEmail) && fault.NoFault? && id !in s.users
    ensures o.envelope.status == NotFound ==> o.envelope.message == UserNotFound && o.envelope.body == NoBody
    ensures o.envelope.status == ServerError <==>
      Accepts(data, isEmail) && (fault.Fails? || (id in s.users && data.email in OtherEmails(s, id)))
    ensures o.envelope.status == ServerError ==> o.envelope.body == NoBody
    ensures o.envelope.status == ServerError && fault.Fails? ==>
      o.envelope.message == (if fault.message == "" then InternalError else fault.message)
    ensures o.envelope.status == ServerError && fault.NoFault? ==>
      o.envelope.message == ErrorMessage(DuplicateEmail(data.email))
    // success: the target's four fields replaced, everything else kept
    ensures o.envelope.success ==>
      && id in s.users
      && o.envelope.message == UserUpdated
      && o.envelope.body.UserBody?
      && var u := o.envelope.body.user;
      && Holds(u, data)
      && u.id == s.users[id].id
      && u.createdAt == s.users[id].createdAt
      && u.updatedAt == now
      && o.store.users == s.users[id := u]
      && o.store.order == s.order
    ensures Valid(s) ==> Valid(o.store)
  {
    match Validate(data, isEmail)
    case Rejected(issues) => Rejection(s, issues)
    case Accepted(d) =>
      match Update(s, id, d, now, fault)
      case Err(e) =>
        assert !e.RequestFailed? ==> ErrorMessage(e) != "" by {
          if !e.RequestFailed? { ConstraintMessageNonEmpty(e); }
        }
        Failure(s, e, InternalError)
      case Ok(None) =>
        Outcome(Envelope(false, NotFound, UserNotFound, NoBody), s, false)
      case Ok(Some(w)) =>
        Outcome(Envelope(true, OK, UserUpdated, UserBody(w.user)), w.store, true)
  }

  /** `fetchUsers()`: an empty collection is reported as a 404 failure. */
  function FetchUsers(s: Store, fault: Fault): (o: Outcome)
    ensures o.store == s && !o.revalidated
    ensures o.envelope.status in {OK, NotFound, ServerError}
    ensures o.envelope.success <==> o.envelope.status == OK
    ensures o.envelope.status == ServerError <==> fault.Fails?
    ensures fault.Fails? ==>
      o.envelope == Envelope(false, ServerError, if fault.message == "" then FetchError else fault.message, NoBody)
    ensures o.envelope.status == NotFound ==>
      o.envelope.message == NoUsersFound && o.envelope.body == UsersBody([])
    ensures o.envelope.success ==>
      && o.envelope.message == UsersFetched
      && o.envelope.body.UsersBody?
      && |o.envelope.body.users| > 0
      && (forall u :: u in o.envelope.body.users ==> u in s.users.Values)
    ensures Valid(s) && fault.NoFault? ==>
      && (o.envelope.status == NotFound <==> |s.users| == 0)
      && (o.envelope.success ==>
            && |o.envelope.body.users| == |s.users|
            && forall id :: id in s.users ==> s.users[id] in o.envelope.body.users)
  {
    match FindAll(s, fault)
    case Err(e) => Failure(s, e, FetchError)
    case Ok(users) =>
      assert Valid(s) ==> |s.order| == |s.users| by {
        if Valid(s) { OrderCountsRecords(s); }
      }
      if |users| == 0 then Outcome(Envelope(false, NotFound, NoUsersFound, UsersBody([])), s, false)
      else Outcome(Envelope(true, OK, UsersFetched, UsersBody(users)), s, false)
  }

  /** `deleteUser(userId)` */
  function DeleteUser(s: Store, id: Id, fault: Fault): (o: Outcome)
    ensures o.envelope.status in {OK, NotFound, ServerError}
    ensures o.envelope.success <==> o.envelope.status == OK
    ensures o.revalidated <==> o.envelope.success
    ensures !o.envelope.success ==> o.store == s
    ensures fault.Fails? ==>
      o.envelope == Envelope(false, ServerError, if fault.message == "" then DeleteError else fault.message, NoBody)
    ensures fault.NoFault? && id !in s.users ==>
      o.envelope == Envelope(false, NotFound, UserNotFound, NoBody)
    ensures fault.NoFault? && id in s.users ==>
      && o.envelope == Envelope(true, OK, UserDeleted, UserBody(s.users[id]))
      && o.store.users == s.users - {id}
      && id !in o.store.users
    ensures Valid(s) ==> Valid(o.store)
  {
    match Remove(s, id, fault)
    case Err(e) => Failure(s, e, DeleteError)
    case Ok(None) => Outcome(Envelope(false, NotFound, UserNotFound, NoBody), s, false)
    case Ok(Some(w)) => Outcome(Envelope(true, OK, UserDeleted, UserBody(w.user)), w.store, true)
  }
}
