# User management: server actions over the user collection

This project models the server side of a small CRUD user-management
application. The four server actions `addUser`, `editUser`, `fetchUsers` and
`deleteUser` (`src/actions/index.js`) each take the user collection and their
arguments. Each returns a result envelope `{success, status, message, user | users | errors}`.
Before a record candidate reaches the database, a request schema checks it:
name of 1 to 100 letters or whitespace, non-empty address, phone of at least
10 characters, and an email check. A schema failure becomes a 400 envelope.
It lists every issue as `{path, message}` and joins the messages with `", "`.
Every other error thrown inside the action's `try` becomes a 500 envelope.
Its message is the error's text, or a fixed fallback when that text is empty.
The persisted `User` model (`src/models/userModel.js`) adds its own rules:
all four fields required, a name of at least 4 characters, a unique email,
and `createdAt`/`updatedAt` timestamps.

Layout, one module per file:

- `text.dfy` — `Text`: JavaScript `Array.prototype.join`, with an independent
  description of a join (each part at its offset, a separator between
  neighbours) proved equivalent to it. Also the character classes of the name
  pattern (`[A-Za-z]` and JavaScript's `\s`).
- `schema.dfy` — `Schema`: the record candidate, the schema rules, the issue
  list the schema reports, and `Validate`.
- `validation_errors.dfy` — `ValidationErrors`: the issue serialiser and the
  summary message.
- `user_model.dfy` — `UserModel`: stored records and the collection. The
  collection is a map from id to record, plus an insertion order (the order
  in which the model lists records), plus an id generator. The module also holds the
  collection invariant (including the unique email index), the model
  validators, the store errors and the four store calls (`create`,
  `findByIdAndUpdate`, `find`, `findByIdAndDelete`).
- `actions.dfy` — `Actions`: the four actions as pure functions from a
  collection to an `Outcome` (envelope, collection afterwards, and a
  `revalidated` flag standing for `revalidatePath("/")`).
- `action_properties.dfy` — `ActionProperties`: properties that span
  several calls.

Inputs the code gets from outside are parameters. `isEmail` is the email check
of the schema, left uninterpreted. `now` is the clock behind the timestamps.
`fault` says whether the database request itself fails, and with which message
(a lost connection, or an id that cannot be cast to an object id).

Listing an empty collection is not a success: `fetchUsers` answers
`success: false`, status 404, "No users found" and `users: []`
(`src/actions/index.js:131-133`). `FetchUsers` and
`ActionProperties.FetchEmptyIsNotFound` state that behaviour.

## Model

| member | source | states |
|---|---|---|
| Text.Join | src/actions/index.js:49 | `join` of n > 0 parts has length equal to the parts' total length plus n - 1 separators; the empty list joins to "" |
| Text.JoinIsJoinOf | src/actions/index.js:49 | the joined string has each part, in order, at its offset, with the separator between neighbouring parts and nothing else |
| Text.IsJoinOfUnique | src/actions/index.js:49 | any string laid out that way is the join, so the summary message is fully determined by the message list |
| Schema.Validate | src/actions/index.js:11-20 | the schema accepts exactly when 1 <= length of name <= 100, every name character is an ASCII letter or JavaScript whitespace, address is non-empty, phone has at least 10 characters and the email check holds; accepted data is returned unchanged; a rejection carries the non-empty issue list |
| Schema.IssuesEmptyIffAccepts | src/actions/index.js:11-20 | the issue list is empty if and only if every field rule holds |
| Schema.IssuesNameFailingFields | src/actions/index.js:11-20 | every issue has a one-element path naming one of the four fields, and that field breaks one of its rules |
| Schema.FailingFieldReported | src/actions/index.js:11-20 | conversely, a field that breaks a rule has an issue under its own path |
| Schema.EmptyNameReportedTwice | src/actions/index.js:12-16 | an empty name is reported twice, first "Name is required" and then the special-characters message, because every string check runs |
| ValidationErrors.Serialize | src/actions/index.js:44-47 | the errors correspond one-to-one, in order, to the issues; each has the dot-joined issue path and the issue's message |
| ValidationErrors.Messages | src/actions/index.js:49 | the message list has one entry per error, in the same order |
| ValidationErrors.SummaryListsIssueMessages | src/actions/index.js:44-56 | the summary is the issue messages in the schema's order, joined by ", " |
| ValidationErrors.FlatPathIsFieldName | src/actions/index.js:45 | a one-field path serialises to that field's name |
| ValidationErrors.SingleIssueSummary | src/actions/index.js:49 | with a single issue, the summary is exactly that issue's message |
| UserModel.ViolationsEmptyIffMeetsModel | src/models/userModel.js:4-21 | the model validators pass if and only if all four fields are non-empty and the name has at least 4 characters |
| UserModel.ConstraintMessageNonEmpty | src/actions/index.js:59-63 | a model-validation or duplicate-key error always has a message of its own, so the 500 fallback is used only for a failed request with no message |
| UserModel.OrderCountsRecords | src/actions/index.js:130 | a valid collection lists each stored record exactly once |
| UserModel.Create | src/models/userModel.js:3-22 | a create succeeds exactly when the model validators pass, the request does not fail and the email is not stored yet. A validator failure takes precedence, then a request failure, then the duplicate-key error. On success the new record holds the four fields, has createdAt = updatedAt = now and a fresh id, is the only change to the collection, and keeps the collection invariant |
| UserModel.Update | src/actions/index.js:75-79 | a failed request is an error. A missing id yields null. An email held by another record is a duplicate-key error. Otherwise the update succeeds: the target's four fields are replaced, its id and createdAt kept, updatedAt set to now, every other record untouched, and the invariant kept. No model validator runs |
| UserModel.Listed | src/actions/index.js:130 | the listing holds only stored records, holds every stored record listed in the insertion order, and has one entry per id when every id is stored |
| UserModel.FindAll | src/actions/index.js:130 | a find fails exactly when the request fails; otherwise it returns only stored records and every stored record |
| UserModel.Remove | src/actions/index.js:158 | a delete of a missing id yields null. A delete of a present id returns that record's snapshot, removes exactly that id, and keeps the invariant |
| Actions.AddUser | src/actions/index.js:25-65 | status is 400 exactly when the schema rejects, with the serialised issues and their ", " summary. It is 500 exactly when the store write fails (short name, empty field, duplicate email, failed request), with the error text or "Internal server error". It is 201, "User added successfully", when one new record holds the submitted fields. Only 201 revalidates, and a failure leaves the collection unchanged |
| Actions.EditUser | src/actions/index.js:70-121 | invalid data gives 400 whether or not the id exists. Valid data with an absent id gives 404 "User not found" with no errors field. A duplicate email or failed request gives 500. Success gives 200 "User updated successfully", with the target's fields replaced and every other record kept. Only 200 revalidates, and a failure leaves the collection unchanged |
| Actions.FetchUsers | src/actions/index.js:126-149 | the collection is never changed and never revalidated. A failed request gives 500 with its message or "Error fetching users". An empty collection gives success false, 404, "No users found", users []. Otherwise the result is 200 with every stored record, once each |
| Actions.DeleteUser | src/actions/index.js:154-178 | a failed request gives 500 with its message or "Error deleting user". An absent id gives 404 "User not found". A present id gives 200 "User deleted successfully" with the removed record's snapshot, and the record is gone. Only 200 revalidates |
| ActionProperties.RejectionReportsEveryIssue | src/actions/index.js:43-56 | a rejected add returns success false and status 400, one error per issue in order, and a message that is the ", "-join of their messages |
| ActionProperties.BadNameCharacterReported | src/actions/index.js:16 | a name character that is neither a letter nor whitespace makes both add and edit answer 400 with an error whose path is "name" |
| ActionProperties.DeleteTwice | src/actions/index.js:158-169 | deleting the same id twice answers 200 with the record, then 404; only the first call revalidates |
| ActionProperties.AddThenFetch | src/actions/index.js:29-38 | after a successful add, listing succeeds, has one more record, and contains a record holding exactly the submitted fields |
| ActionProperties.ShortNameAcceptedOnlyByEdit | src/models/userModel.js:7 | a 1–3 character name passes the schema. Adding it answers 500 with the model's minLength message and leaves the collection unchanged; editing an existing record to it, with an email no other record holds (its own email included), answers 200, since the update runs no model validators |
| ActionProperties.DuplicateEmailRejected | src/models/userModel.js:12 | adding schema-valid data whose email is already stored answers 500 and leaves the collection unchanged, whatever the name's length and whether or not the request fails |
| ActionProperties.ActionsPreserveValid | src/actions/index.js:25-178 | every action keeps the collection invariant, including the unique email index; fetch never revalidates; add revalidates only with 201 |
| ActionProperties.FetchEmptyIsNotFound | src/actions/index.js:131-133 | listing the empty collection is the 404 "No users found" failure with an empty users array |

## Left out

- `connectDB`: the connection bootstrap runs before the `try`, so its failures reject the call instead of producing an envelope. It is not modelled, and the database connection is not part of this model.
- The database driver and network: every request error (a lost connection, a timeout, an id that cannot be cast to an object id) is the `fault` parameter. Ids are natural numbers from a counter, not object ids.
- The internals of the schema library's email check: it is the uninterpreted parameter `isEmail`, and no conformance to any email standard is claimed.
- Schema.Validate: the issue order (fields in schema order, and within a field every failing check in declaration order) is the schema library's behaviour. Only the four string-valued inputs the form always sends are modelled. A missing or non-string field ("Required" / type issues) is not modelled.
- String lengths count Unicode scalar values, while JavaScript `.length` counts UTF-16 code units. The two differ only for characters outside the Basic Multilingual Plane.
- UserModel.ErrorMessage: the texts of the model's validation error and of the duplicate-key error approximate the library and driver wording. The contracts rely only on them being non-empty.
- UserModel.Violations: reports one failure per path (`required` before `minLength`), in schema order, as the model's validator does.
- `JSON.parse(JSON.stringify(...))` document serialisation, the `_id`/`__v` fields and console logging: the envelope carries the record value itself.
- `revalidatePath` internals: only whether it was called, as the `revalidated` flag.
- The order of an unsorted `find`: the database guarantees none, and the model's insertion order is its own choice. No contract depends on the order.
- Asynchrony and concurrent requests: each action is one atomic step.
- The UI (`src/components/`, `src/app/page.js`, `src/context/index.js`), including its client-side check for trimmed, non-empty fields, and the form constants in `src/utils/index.js`: presentation only, with no server-side behaviour.
