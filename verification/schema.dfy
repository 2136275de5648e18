/** The request-side user schema: four string fields and the rules each must
    satisfy before a record candidate reaches the store. */
module Schema {
  import opened Text

  /** A record candidate; after validation, the validated data. */
  datatype UserData = UserData(name: string, email: string, address: string, phone: string)

  /** One rule violation: the path to the offending field and its message. */
  datatype Issue = Issue(path: seq<string>, message: string)

  /** The outcome of parsing a candidate with the schema. */
  datatype Validation = Accepted(data: UserData) | Rejected(issues: seq<Issue>)

  const NameRequired := "Name is required"
  const NameTooLong := "Name is too long"
  const NameSpecialChars := "Name should not contain special characters"
  const InvalidEmail := "Invalid email address"
  const AddressRequired := "Address is required"
  const PhoneTooShort := "Phone number must be at least 10 digits"

  const MaxNameLength := 100
  const MinPhoneLength := 10

  /** A character of the class `[A-Za-z\s]`. */
  predicate IsNameChar(c: char)
  {
    IsAsciiLetter(c) || IsJsWhitespace(c)
  }

  /** The anchored pattern `^[A-Za-z\s]+$`: one or more name characters. */
  predicate MatchesNamePattern(name: string)
  {
    |name| >= 1 && forall i :: 0 <= i < |name| ==> IsNameChar(name[i])
  }

  /** An issue for `field` unless the rule holds. */
  function Check(holds: bool, field: string, message: string): seq<Issue>
  {
    if holds then [] else [Issue([field], message)]
  }

  /** Every string check of a field runs, in declaration order, and each
      failing one reports its own issue. */
  function NameIssues(name: string): seq<Issue>
  {
    Check(|name| >= 1, "name", NameRequired)
    + Check(|name| <= MaxNameLength, "name", NameTooLong)
    + Check(MatchesNamePattern(name), "name", NameSpecialChars)
  }

  function EmailIssues(email: string, isEmail: string -> bool): seq<Issue>
  {
    Check(isEmail(email), "email", InvalidEmail)
  }

  function AddressIssues(address: string): seq<Issue>
  {
    Check(|address| >= 1, "address", AddressRequired)
  }

  function PhoneIssues(phone: string): seq<Issue>
  {
    Check(|phone| >= MinPhoneLength, "phone", PhoneTooShort)
  }

  /** All issues, field by field in the order the object schema lists them. */
  function Issues(d: UserData, isEmail: string -> bool): seq<Issue>
  {
    NameIssues(d.name) + EmailIssues(d.email, isEmail) + AddressIssues(d.address) + PhoneIssues(d.phone)
  }

  /** Reference statement of the schema, field by field. */
  ghost predicate Accepts(d: UserData, isEmail: string -> bool)
  {
    && 1 <= |d.name| <= 100
    && (forall i :: 0 <= i < |d.name| ==> IsAsciiLetter(d.name[i]) || IsJsWhitespace(d.name[i]))
    && isEmail(d.email)
    && |d.address| >= 1
    && |d.phone| >= 10
  }

  /** Whether the named field satisfies all of its rules. */
  ghost predicate FieldOk(d: UserData, isEmail: string -> bool, field: string)
  {
    match field
    case "name" => MatchesNamePattern(d.name) && |d.name| <= MaxNameLength
    case "email" => isEmail(d.email)
    case "address" => |d.address| >= 1
    case "phone" => |d.phone| >= MinPhoneLength
    case _ => true
  }

  /** `userSchema.parse(data)`: the data unchanged when every rule holds,
      otherwise the non-empty list of issues. */
  function Validate(d: UserData, isEmail: string -> bool): (v: Validation)
    ensures v.Accepted? <==> Accepts(d, isEmail)
    ensures v.Accepted? ==> v.data == d
    ensures v.Rejected? ==> |v.issues| > 0 && v.issues == Issues(d, isEmail)
  {
    IssuesEmptyIffAccepts(d, isEmail);
    var issues := Issues(d, isEmail);
    if |issues| == 0 then Accepted(d) else Rejected(issues)
  }

  /** The schema reports no issue exactly when the candidate meets every rule. */
  lemma IssuesEmptyIffAccepts(d: UserData, isEmail: string -> bool)
    ensures |Issues(d, isEmail)| == 0 <==> Accepts(d, isEmail)
  {
  }

  /** Every issue names a single schema field, and that field breaks a rule. */
  lemma IssuesNameFailingFields(d: UserData, isEmail: string -> bool)
    ensures forall k :: 0 <= k < |Issues(d, isEmail)| ==>
      |Issues(d, isEmail)[k].path| == 1 &&
      Issues(d, isEmail)[k].path[0] in {"name", "email", "address", "phone"} &&
      !FieldOk(d, isEmail, Issues(d, isEmail)[k].path[0])
  {
  }

  /** A field that breaks a rule is reported under its own path. */
  lemma FailingFieldReported(d: UserData, isEmail: string -> bool, field: string)
    requires field in {"name", "email", "address", "phone"}
    requires !FieldOk(d, isEmail, field)
    ensures exists k :: 0 <= k < |Issues(d, isEmail)| && Issues(d, isEmail)[k].path == [field]
  {
    var n := NameIssues(d.name);
    var e := EmailIssues(d.email, isEmail);
    var a := AddressIssues(d.address);
    var p := PhoneIssues(d.phone);
    var all := Issues(d, isEmail);
    assert all == n + e + a + p;
    if field == "name" {
      assert |n| > 0 && n[0].path == ["name"];
      assert all[0] == n[0];
    } else if field == "email" {
      assert all[|n|] == e[0];
    } else if field == "address" {
      assert all[|n| + |e|] == a[0];
    } else {
      assert all[|n| + |e| + |a|] == p[0];
    }
  }

  /** An empty name breaks both the minimum length and the pattern. */
  lemma EmptyNameReportedTwice(d: UserData, isEmail: string -> bool)
    requires d.name == ""
    ensures Issues(d, isEmail)[..2] == [Issue(["name"], NameRequired), Issue(["name"], NameSpecialChars)]
  {
  }
}
