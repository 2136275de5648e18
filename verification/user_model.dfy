/** The persisted `User` model: stored records, the constraints the model
    enforces when a record is written, and the four store calls the actions
    make. The collection is a map from id to record together with an
    insertion order; the model lists records in that order, a choice of its
    own, since the database promises no order for an unsorted `find`. */
module UserModel {
  import opened Text
  import opened Schema

  type Id = nat

  /** A stored record with the timestamps the model maintains. */
  datatype User = User(
    id: Id,
    name: string,
    email: string,
    address: string,
    phone: string,
    createdAt: int,
    updatedAt: int)

  /** The collection: records by id, their insertion order, and the next
      fresh id (the store's id generator). */
  datatype Store = Store(users: map<Id, User>, order: seq<Id>, nextId: Id)

  datatype Option<T> = None | Some(value: T)

  /** Whether the database request itself fails (connection lost, an id that
      cannot be cast), and with which error message. */
  datatype Fault = NoFault | Fails(message: string)

  /** A model validator failure on one path. */
  datatype Violation = Violation(path: string, message: string)

  datatype StoreError =
    | ValidationFailed(violations: seq<Violation>)
    | DuplicateEmail(email: string)
    | RequestFailed(message: string)

  datatype Result<T> = Ok(value: T) | Err(error: StoreError)

  /** A successful write: the record as stored and the collection after it. */
  datatype Written = Written(user: User, store: Store)

  const MinNameLength := 4
  const NameTooShort := "Name must be at least 4 characters long"
  const ModelName := "User"

  function RequiredMessage(path: string): string
  {
    "Path `" + path + "` is required."
  }

  /** `required: true` on a string path: the empty string counts as missing. */
  function RequiredViolation(path: string, value: string): seq<Violation>
  {
    if |value| == 0 then [Violation(path, RequiredMessage(path))] else []
  }

  /** The model validators run on create, path by path in schema order; a
      path reports its first failing validator (`required` before
      `minLength`). */
  function Violations(d: UserData): seq<Violation>
  {
    (if |d.name| == 0 then [Violation("name", RequiredMessage("name"))]
     else if |d.name| < MinNameLength then [Violation("name", NameTooShort)]
     else [])
    + RequiredViolation("email", d.email)
    + RequiredViolation("address", d.address)
    + RequiredViolation("phone", d.phone)
  }

  /** Reference statement of the model's field constraints. */
  ghost predicate MeetsModel(d: UserData)
  {
    && |d.name| >= 4
    && |d.email| > 0
    && |d.address| > 0
    && |d.phone| > 0
  }

  lemma ViolationsEmptyIffMeetsModel(d: UserData)
    ensures |Violations(d)| == 0 <==> MeetsModel(d)
  {
  }

  /** Text of the error a failed store call raises. */
  function ErrorMessage(e: StoreError): string
  {
    match e
    case ValidationFailed(vs) => ModelName + " validation failed: " + Join(ViolationTexts(vs), ", ")
    case DuplicateEmail(email) =>
      "E11000 duplicate key error collection: users index: email_1 dup key: { email: \"" + email + "\" }"
    case RequestFailed(m) => m
  }

  function ViolationTexts(vs: seq<Violation>): (r: seq<string>)
    ensures |r| == |vs|
  {
    if |vs| == 0 then [] else [vs[0].path + ": " + vs[0].message] + ViolationTexts(vs[1..])
  }

  /** Constraint failures always carry a message of their own; only a failed
      request can have an empty one. */
  lemma ConstraintMessageNonEmpty(e: StoreError)
    requires !e.RequestFailed?
    ensures ErrorMessage(e) != ""
  {
  }

  // -------------------------------------------------------------------------
  // Collection invariant
  // -------------------------------------------------------------------------

  ghost predicate Distinct(xs: seq<Id>)
  {
    forall i, j :: 0 <= i < j < |xs| ==> xs[i] != xs[j]
  }

  /** The emails held by the collection. */
  function Emails(s: Store): set<string>
  {
    set id | id in s.users :: s.users[id].email
  }

  /** The emails held by every record other than `self`. */
  function OtherEmails(s: Store, self: Id): set<string>
  {
    set id | id in s.users && id != self :: s.users[id].email
  }

  /** What the database guarantees of the collection: ids are those listed
      in the insertion order, once each; each record knows its id; the id
      generator is ahead of every id; the unique index on email holds. */
  ghost predicate Valid(s: Store)
  {
    && Distinct(s.order)
    && (forall id :: id in s.users ==> id in s.order)
    && (forall k :: 0 <= k < |s.order| ==> s.order[k] in s.users)
    && (forall id :: id in s.users ==> s.users[id].id == id && id < s.nextId)
    && (forall a, b :: a in s.users && b in s.users && a != b ==> s.users[a].email != s.users[b].email)
  }

  /** A repetition-free list has as many elements as the set of its elements. */
  lemma {:induction false} DistinctCardinality(xs: seq<Id>)
    requires Distinct(xs)
    ensures |set x: Id | x in xs| == |xs|
  {
    if |xs| > 0 {
      var tail := xs[1..];
      assert Distinct(tail);
      DistinctCardinality(tail);
      var rest := set x: Id | x in tail;
      assert xs[0] !in rest by {
        forall k | 0 <= k < |tail| ensures tail[k] != xs[0] {
          assert tail[k] == xs[k + 1];
        }
      }
      assert (set x: Id | x in xs) == {xs[0]} + rest;
      assert |{xs[0]} + rest| == 1 + |rest|;
      assert |rest| == |tail|;
      assert |xs| == 1 + |tail|;
    }
  }

  /** A valid collection lists each of its records exactly once. */
  lemma OrderCountsRecords(s: Store)
    requires Valid(s)
    ensures |s.order| == |s.users|
  {
    DistinctCardinality(s.order);
    assert s.users.Keys == set x: Id | x in s.order;
  }

  function Empty(): (s: Store)
    ensures Valid(s) && |s.users| == 0
  {
    Store(map[], [], 0)
  }

  /** The four request fields of a record. */
  predicate Holds(u: User, d: UserData)
  {
    u.name == d.name && u.email == d.email && u.address == d.address && u.phone == d.phone
  }

  // -------------------------------------------------------------------------
  // Store calls
  // -------------------------------------------------------------------------

  /** `User.create(data)`: run the model validators, send the insert, and let
      the unique index reject a duplicate email. */
  function Create(s: Store, d: UserData, now: int, fault: Fault): (r: Result<Written>)
    ensures r.Ok? <==> MeetsModel(d) && fault.NoFault? && d.email !in Emails(s)
    ensures r.Err? && !MeetsModel(d) ==> r.error == ValidationFailed(Violations(d))
    ensures r.Err? && MeetsModel(d) && fault.Fails? ==> r.error == RequestFailed(fault.message)
    ensures r.Err? && MeetsModel(d) && fault.NoFault? ==> r.error == DuplicateEmail(d.email)
    ensures r.Ok? ==>
      var u := r.value.user;
      && Holds(u, d)
      && u.createdAt == now && u.updatedAt == now
      && r.value.store.users == s.users[u.id := u]
      && (Valid(s) ==> u.id !in s.users && Valid(r.value.store))
      && r.value.store.order == s.order + [u.id]
  {
    ViolationsEmptyIffMeetsModel(d);
    var violations := Violations(d);
    if |violations| > 0 then Err(ValidationFailed(violations))
    else if fault.Fails? then Err(RequestFailed(fault.message))
    else if d.email in Emails(s) then Err(DuplicateEmail(d.email))
    else
      var id := s.nextId;
      var u := User(id, d.name, d.email, d.address, d.phone, now, now);
      var s' := Store(s.users[id := u], s.order + [id], id + 1);
      assert Valid(s) ==> Valid(s') by {
        if Valid(s) {
          assert id !in s.order;
          assert forall a :: a in s.users ==> s.users[a].email in Emails(s);
        }
      }
      Ok(Written(u, s'))
  }

  /** `User.findByIdAndUpdate(id, {$set: data}, {new: true})`: no model
      validators run on an update query; the unique index still applies.
      `None` is the `null` the query yields when no record has the id. */
  function Update(s: Store, id: Id, d: UserData, now: int, fault: Fault): (r: Result<Option<Written>>)
    ensures fault.Fails? ==> r == Err(RequestFailed(fault.message))
    ensures fault.NoFault? && id !in s.users ==> r == Ok(None)
    ensures fault.NoFault? && id in s.users && d.email in OtherEmails(s, id) ==> r == Err(DuplicateEmail(d.email))
    ensures fault.NoFault? && id in s.users && d.email !in OtherEmails(s, id) ==> r.Ok? && r.value.Some?
    ensures r.Ok? && r.value.Some? ==>
      var u := r.value.value.user;
      && fault.NoFault? && id in s.users && d.email !in OtherEmails(s, id)
      && Holds(u, d)
      && u.id == s.users[id].id
      && u.createdAt == s.users[id].createdAt
      && u.updatedAt == now
      && r.value.value.store == s.(users := s.users[id := u])
      && (Valid(s) ==> Valid(r.value.value.store))
  {
    if fault.Fails? then Err(RequestFailed(fault.message))
    else if id !in s.users then Ok(None)
    else if d.email in OtherEmails(s, id) then Err(DuplicateEmail(d.email))
    else
      var old_ := s.users[id];
      var u := old_.(name := d.name, email := d.email, address := d.address, phone := d.phone, updatedAt := now);
      var s' := s.(users := s.users[id := u]);
      assert Valid(s) ==> Valid(s') by {
        if Valid(s) {
          assert forall a :: a in s.users && a != id ==> s.users[a].email in OtherEmails(s, id);
        }
      }
      Ok(Some(Written(u, s')))
  }

  /** The records whose ids appear in `order`, in that order. */
  function Listed(order: seq<Id>, users: map<Id, User>): (r: seq<User>)
    ensures |r| <= |order|
    ensures forall u :: u in r ==> exists id :: id in users && id in order && users[id] == u
    ensures forall id :: id in order && id in users ==> users[id] in r
    ensures (forall k :: 0 <= k < |order| ==> order[k] in users) ==> |r| == |order|
  {
    if |order| == 0 then []
    else
      var rest := Listed(order[1..], users);
      if order[0] in users then [users[order[0]]] + rest else rest
  }

  /** `User.find({})`: every record. The model lists them in insertion
      order; the database itself guarantees no order. */
  function FindAll(s: Store, fault: Fault): (r: Result<seq<User>>)
    ensures r.Ok? <==> fault.NoFault?
    ensures r.Err? ==> r.error == RequestFailed(fault.message)
    ensures r.Ok? ==> forall u :: u in r.value ==> u in s.users.Values
    ensures r.Ok? ==> forall id :: id in s.users && id in s.order ==> s.users[id] in r.value
  {
    if fault.Fails? then Err(RequestFailed(fault.message)) else Ok(Listed(s.order, s.users))
  }

  /** `order` without `id`. */
  function Without(order: seq<Id>, id: Id): (r: seq<Id>)
    ensures forall x :: x in r <==> x in order && x != id
    ensures Distinct(order) ==> Distinct(r)
  {
    if |order| == 0 then []
    else
      var rest := Without(order[1..], id);
      if order[0] == id then rest
      else
        assert Distinct(order) ==> order[0] !in order[1..];
        [order[0]] + rest
  }

  /** `User.findByIdAndDelete(id)`: the removed record, or `None` when no
      record has the id. */
  function Remove(s: Store, id: Id, fault: Fault): (r: Result<Option<Written>>)
    ensures fault.Fails? ==> r == Err(RequestFailed(fault.message))
    ensures fault.NoFault? && id !in s.users ==> r == Ok(None)
    ensures fault.NoFault? && id in s.users ==>
      r.Ok? && r.value.Some? &&
      r.value.value.user == s.users[id] &&
      r.value.value.store.users == s.users - {id} &&
      (Valid(s) ==> Valid(r.value.value.store))
  {
    if fault.Fails? then Err(RequestFailed(fault.message))
    else if id !in s.users then Ok(None)
    else
      var s' := Store(s.users - {id}, Without(s.order, id), s.nextId);
      assert Valid(s) ==> Valid(s') by {
        if Valid(s) {
          forall k | 0 <= k < |s'.order|
            ensures s'.order[k] in s'.users
          {
            assert s'.order[k] in s'.order;
          }
        }
      }
      Ok(Some(Written(s.users[id], s')))
  }
}
