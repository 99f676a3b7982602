/**
 * What `JsonDataReader` computes, as functions: the per-record decoders, the
 * first-match user search behind every id link, the "stop at the first bad
 * record" policy of each file, and the whole load.
 *
 * The imperative reader in JsonDataReader.dfy is proved equal to these.
 * Line numbers in this module refer to src/database/JsonDataReader.java.
 */
module Decoding {
  import opened Json
  import opened DataTypes
  import opened JavaText
  import JobPostingStatus

  // ---------------------------------------------------------------------
  // Reading a batch: the longest prefix that decodes
  // ---------------------------------------------------------------------

  /** What reading one file can end with, besides success. */
  datatype ReadError =
    | FileUnreadable                          // the file could not be opened or parsed
    | NullFile                                // the file holds `null` (the admin reader dereferences it)
    | NotAnArray                              // the file's value is not a JSON array
    | RecordFailed(index: nat, fault: Fault)  // record `index` threw `fault`

  /**
   * `list` and `err` are what a `try` around the whole `for` loop leaves behind:
   * `list` holds the decodings of the first `|list|` items, in order; either every
   * item decoded, or item `|list|` is the first that failed and `err` reports it.
   */
  ghost predicate LoadedPrefix<S, T>(items: seq<S>, decode: S -> Result<T>, list: seq<T>, err: Option<ReadError>)
  {
    && |list| <= |items|
    && (forall j :: 0 <= j < |list| ==> decode(items[j]) == Ok(list[j]))
    && (err.None? ==> |list| == |items|)
    && (err.Some? ==>
          |list| < |items| && decode(items[|list|]).Err?
          && err.value == RecordFailed(|list|, decode(items[|list|]).fault))
  }

  /** Decode `items` in order, keeping the decoded prefix and stopping at the first failure. */
  function ReadAll<S, T>(items: seq<S>, decode: S -> Result<T>): (r: (seq<T>, Option<ReadError>))
    ensures LoadedPrefix(items, decode, r.0, r.1)
    decreases |items|
  {
    if items == [] then ([], None)
    else
      var last := |items| - 1;
      var (list, err) := ReadAll(items[..last], decode);
      if err.Some? then (list, err)
      else match decode(items[last])
        case Ok(x) => (list + [x], None)
        case Err(f) => (list, Some(RecordFailed(last, f)))
  }

  /** The stopping policy leaves exactly one possible outcome. */
  lemma LoadedPrefixUnique<S, T>(items: seq<S>, decode: S -> Result<T>,
                                 list1: seq<T>, err1: Option<ReadError>,
                                 list2: seq<T>, err2: Option<ReadError>)
    requires LoadedPrefix(items, decode, list1, err1)
    requires LoadedPrefix(items, decode, list2, err2)
    ensures list1 == list2 && err1 == err2
  {
    assert |list1| == |list2|;
    forall j | 0 <= j < |list1| ensures list1[j] == list2[j] {
      assert decode(items[j]) == Ok(list1[j]);
    }
  }

  /**
   * A failing record hides everything after it: two batches that agree up to
   * and including their first failing record read the same.
   */
  lemma {:induction false} FailureHidesRest<S, T>(items1: seq<S>, items2: seq<S>, decode: S -> Result<T>, k: nat)
    requires k < |items1| && k < |items2| && items1[..k + 1] == items2[..k + 1]
    requires forall j :: 0 <= j < k ==> decode(items1[j]).Ok?
    requires decode(items1[k]).Err?
    ensures ReadAll(items1, decode) == ReadAll(items2, decode)
    ensures |ReadAll(items1, decode).0| == k
  {
    var (list1, err1) := ReadAll(items1, decode);
    var (list2, err2) := ReadAll(items2, decode);
    assert forall j :: 0 <= j <= k ==> items1[j] == items1[..k + 1][j] == items2[j];
    assert LoadedPrefix(items2, decode, list1, err1);
    LoadedPrefixUnique(items2, decode, list1, err1, list2, err2);
  }

  /** All or nothing: the decodings of every item, or the first failure. */
  function MapAll<S, T>(xs: seq<S>, f: S -> Result<T>): (r: Result<seq<T>>)
    ensures r.Ok? <==> forall j :: 0 <= j < |xs| ==> f(xs[j]).Ok?
    ensures r.Ok? ==> |r.value| == |xs| && forall j :: 0 <= j < |xs| ==> f(xs[j]) == Ok(r.value[j])
  {
    var (list, err) := ReadAll(xs, f);
    if err.None? then Ok(list) else Err(err.value.fault)
  }

  /** The fault `MapAll` reports is that of the first failing item. */
  lemma MapAllFirstFault<S, T>(xs: seq<S>, f: S -> Result<T>, k: nat)
    requires k < |xs| && f(xs[k]).Err?
    requires forall j :: 0 <= j < k ==> f(xs[j]).Ok?
    ensures MapAll(xs, f) == Err(f(xs[k]).fault)
  {
    var (list, err) := ReadAll(xs, f);
    assert |list| == k;
  }

  /** When every item decodes, `MapAll` yields exactly their decodings. */
  lemma MapAllAllOk<S, T>(xs: seq<S>, f: S -> Result<T>, vs: seq<T>)
    requires |vs| == |xs| && forall j :: 0 <= j < |xs| ==> f(xs[j]) == Ok(vs[j])
    ensures MapAll(xs, f) == Ok(vs)
  {
    var (list, err) := ReadAll(xs, f);
    LoadedPrefixUnique(xs, f, list, err, vs, None);
  }

  // ---------------------------------------------------------------------
  // Links to users: the first user with the id
  // ---------------------------------------------------------------------

  /** `k` is the first position in `users` holding a user with id `id`. */
  predicate IsFirstMatch(users: seq<User>, id: Uuid, k: nat)
  {
    k < |users| && users[k].Id() == id && forall j :: 0 <= j < k ==> users[j].Id() != id
  }

  /** The linear search that stops at the first user whose id equals `id`. */
  function FindUser(users: seq<User>, id: Uuid): (r: Option<UserRef>)
    ensures r.Some? ==> IsFirstMatch(users, id, r.value)
    ensures r.None? <==> forall j :: 0 <= j < |users| ==> users[j].Id() != id
    decreases |users|
  {
    if users == [] then None
    else if users[0].Id() == id then Some(0)
    else match FindUser(users[1..], id)
      case None => None
      case Some(k) => assert users[1..][k] == users[k + 1]; Some(k + 1)
  }

  /** A first match is what the search returns. */
  lemma FindUserFirst(users: seq<User>, id: Uuid, k: nat)
    requires IsFirstMatch(users, id, k)
    ensures FindUser(users, id) == Some(k)
  {
  }

  /** `UUID.fromString((String) v)`: `null` throws, and so does a malformed string. */
  function UuidOf(parse: UuidParser, l: Label, v: JsonValue): (r: Result<Uuid>)
    ensures r.Ok? <==> v.JString? && parse(v.s).Some?
    ensures r.Ok? ==> r.value == parse(v.s).value
  {
    var t :- AsText(l, v);
    if t.None? then Err(NullValue(l))
    else match parse(t.value)
      case None => Err(MalformedId(l))
      case Some(u) => Ok(u)
  }

  /**
   * The search loops of lines 302-324 and 353-360: the id is parsed inside the
   * loop, so with no users at all it is never parsed and the record fails as
   * "not found".
   */
  function ResolveUser(parse: UuidParser, users: seq<User>, l: Label, v: JsonValue): (r: Result<UserRef>)
    ensures r.Ok? ==> UuidOf(parse, l, v).Ok? && IsFirstMatch(users, UuidOf(parse, l, v).value, r.value)
  {
    if users == [] then Err(NoSuchUser(l))
    else
      var id :- UuidOf(parse, l, v);
      match FindUser(users, id)
      case None => Err(NoSuchUser(l))
      case Some(k) => Ok(k)
  }

  /** The search that stops at user `k` resolves the link to `k`. */
  lemma ResolveUserFound(parse: UuidParser, users: seq<User>, l: Label, v: JsonValue, k: nat)
    requires UuidOf(parse, l, v).Ok? && IsFirstMatch(users, UuidOf(parse, l, v).value, k)
    ensures ResolveUser(parse, users, l, v) == Ok(k)
  {
    FindUserFirst(users, UuidOf(parse, l, v).value, k);
  }

  /** The search that runs off the end of the users fails with `NoSuchUser`. */
  lemma ResolveUserMissing(parse: UuidParser, users: seq<User>, l: Label, v: JsonValue)
    requires users != [] ==> UuidOf(parse, l, v).Ok?
                             && forall j :: 0 <= j < |users| ==> users[j].Id() != UuidOf(parse, l, v).value
    ensures ResolveUser(parse, users, l, v) == Err(NoSuchUser(l))
  {
  }

  /** A stored user with the record's id is always found: the search fails only for want of one. */
  lemma ResolveUserComplete(parse: UuidParser, users: seq<User>, l: Label, v: JsonValue)
    ensures UuidOf(parse, l, v).Ok? && (exists j :: 0 <= j < |users| && users[j].Id() == UuidOf(parse, l, v).value)
            ==> ResolveUser(parse, users, l, v).Ok?
  {
  }

  /** A posting's employer: the first user with the id, which must be an `Employer` (the cast at line 357). */
  function ResolveEmployer(parse: UuidParser, users: seq<User>, v: JsonValue): (r: Result<UserRef>)
    ensures r.Ok? <==> ResolveUser(parse, users, PostingEmployer, v).Ok?
                       && users[ResolveUser(parse, users, PostingEmployer, v).value].Employer?
    ensures r.Ok? ==> r == ResolveUser(parse, users, PostingEmployer, v)
  {
    var k :- ResolveUser(parse, users, PostingEmployer, v);
    if users[k].Employer? then Ok(k) else Err(WrongUserKind(PostingEmployer))
  }

  /** One applicant id: the first user with it, which must be a `Student` (the cast at line 401). */
  function ResolveApplicant(users: seq<User>, id: Uuid): (r: Result<UserRef>)
    ensures r.Ok? <==> exists k: nat :: IsFirstMatch(users, id, k) && users[k].Student?
    ensures r.Ok? ==> IsFirstMatch(users, id, r.value) && users[r.value].Student?
  {
    match FindUser(users, id)
    case None => Err(NoSuchUser(PostingApplicants))
    case Some(k) =>
      assert forall k' :: IsFirstMatch(users, id, k') ==> k' == k;
      if users[k].Student? then Ok(k) else Err(WrongUserKind(PostingApplicants))
  }

  /** Lines 396-410: every listed id resolved, in order, to a student. */
  function ResolveApplicants(users: seq<User>, ids: seq<Uuid>): (r: Result<seq<UserRef>>)
    ensures r.Ok? ==> |r.value| == |ids| && forall i :: 0 <= i < |ids| ==>
      IsFirstMatch(users, ids[i], r.value[i]) && users[r.value[i]].Student?
  {
    var f := (id: Uuid) => ResolveApplicant(users, id);
    var r := MapAll(ids, f);
    assert r.Ok? ==> forall i :: 0 <= i < |ids| ==> f(ids[i]) == Ok(r.value[i]);
    r
  }

  /**
   * Applicants are resolved in listed order, each to the first user with that id,
   * which is a student; a repeated id gives the same student again. An unknown id or
   * a match that is not a student fails the whole list.
   */
  lemma ApplicantsResolveInOrder(users: seq<User>, ids: seq<Uuid>)
    ensures var r := ResolveApplicants(users, ids);
            && (r.Ok? <==> forall i :: 0 <= i < |ids| ==>
                              exists k: nat :: IsFirstMatch(users, ids[i], k) && users[k].Student?)
            && (r.Ok? ==>
                  && |r.value| == |ids|
                  && (forall i :: 0 <= i < |ids| ==>
                        IsFirstMatch(users, ids[i], r.value[i]) && users[r.value[i]].Student?)
                  && (forall i, j :: 0 <= i < |ids| && 0 <= j < |ids| && ids[i] == ids[j] ==>
                        r.value[i] == r.value[j]))
  {
    var f := (id: Uuid) => ResolveApplicant(users, id);
    var r := ResolveApplicants(users, ids);
    if r.Ok? {
      forall i | 0 <= i < |ids|
        ensures IsFirstMatch(users, ids[i], r.value[i]) && users[r.value[i]].Student?
      {
        assert f(ids[i]) == Ok(r.value[i]);
      }
    }
  }

  // ---------------------------------------------------------------------
  // Field access on one record
  // ---------------------------------------------------------------------

  function TextAt(obj: map<Label, JsonValue>, l: Label): Result<Text> { AsText(l, Get(obj, l)) }
  function BoolAt(obj: map<Label, JsonValue>, l: Label): Result<bool> { AsBool(l, Get(obj, l)) }
  function DoubleAt(obj: map<Label, JsonValue>, l: Label): Result<Double> { AsDouble(l, Get(obj, l)) }
  function LongAt(obj: map<Label, JsonValue>, l: Label): Result<int> { AsLong(l, Get(obj, l)) }
  function ElementsAt(obj: map<Label, JsonValue>, l: Label): Result<seq<JsonValue>> { ElementsOf(l, Get(obj, l)) }
  function UuidAt(parse: UuidParser, obj: map<Label, JsonValue>, l: Label): Result<Uuid> { UuidOf(parse, l, Get(obj, l)) }

  /** The value under `l` passes a `String` cast: it is `null` or a string. */
  predicate IsTextField(obj: map<Label, JsonValue>, l: Label)
  {
    Get(obj, l).JNull? || Get(obj, l).JString?
  }

  /** The value under `l` is the `String` `t`, `null` when `t` is. */
  predicate HasText(obj: map<Label, JsonValue>, l: Label, t: Text)
  {
    Get(obj, l) == TextValue(t)
  }

  /** The value under `l` is a string that `UUID.fromString` accepts. */
  predicate IsIdField(parse: UuidParser, obj: map<Label, JsonValue>, l: Label)
  {
    Get(obj, l).JString? && parse(Get(obj, l).s).Some?
  }

  /** The value under `l` is a string that `UUID.fromString` turns into `id`. */
  predicate HasId(parse: UuidParser, obj: map<Label, JsonValue>, l: Label, id: Uuid)
  {
    Get(obj, l).JString? && parse(Get(obj, l).s) == Some(id)
  }

  /** The strings of an array whose elements are cast to `String` one by one. */
  function TextsOf(l: Label, items: seq<JsonValue>): (r: Result<seq<Text>>)
    ensures r.Ok? <==> forall j :: 0 <= j < |items| ==> items[j].JNull? || items[j].JString?
    ensures r.Ok? ==> |r.value| == |items| && forall j :: 0 <= j < |items| ==> items[j] == TextValue(r.value[j])
  {
    var f := (e: JsonValue) => AsText(l, e);
    var r := MapAll(items, f);
    assert r.Ok? ==> forall j :: 0 <= j < |items| ==> f(items[j]) == Ok(r.value[j]);
    r
  }

  /** The value under `l` passes the `(JSONArray)` cast and every element passes a `String` cast. */
  predicate IsTextArrayField(obj: map<Label, JsonValue>, l: Label)
  {
    || Get(obj, l).JNull?
    || (Get(obj, l).JArray? && forall j :: 0 <= j < |Get(obj, l).elems| ==>
          Get(obj, l).elems[j].JNull? || Get(obj, l).elems[j].JString?)
  }

  /** The array under `l` holds the strings `ts`, in order; a missing or `null` array holds none. */
  predicate HasTexts(obj: map<Label, JsonValue>, l: Label, ts: seq<Text>)
  {
    || (Get(obj, l).JNull? && ts == [])
    || (Get(obj, l).JArray? && |ts| == |Get(obj, l).elems|
        && forall j :: 0 <= j < |ts| ==> Get(obj, l).elems[j] == TextValue(ts[j]))
  }

  /** A guarded string array: `(JSONArray) get(l)`, then `(String)` on each element. */
  function TextsAt(obj: map<Label, JsonValue>, l: Label): (r: Result<seq<Text>>)
    ensures r.Ok? <==> IsTextArrayField(obj, l)
    ensures r.Ok? ==> HasTexts(obj, l, r.value)
  {
    var items :- ElementsAt(obj, l);
    TextsOf(l, items)
  }

  // ---------------------------------------------------------------------
  // The two small decoders
  // ---------------------------------------------------------------------

  /** Lines 192-202: the first of the four majors whose name matches ignoring case, else `Major.NA`. */
  function MajorFromText(names: MajorNames, s: string): (r: Major)
    ensures r != NA ==> EqualsIgnoreCase(s, names.Name(r))
    ensures r == NA <==> forall m: Major :: m != NA ==> !EqualsIgnoreCase(s, names.Name(m))
  {
    if EqualsIgnoreCase(s, names.cs) then ComputerScience
    else if EqualsIgnoreCase(s, names.ce) then ComputerEngineering
    else if EqualsIgnoreCase(s, names.cis) then ComputerInformationSystems
    else if EqualsIgnoreCase(s, names.iit) then IntegratedInformationTechnology
    else NA
  }

  /** No two of the four major names match each other ignoring case. */
  predicate DistinctNames(names: MajorNames)
  {
    forall m1: Major, m2: Major :: m1 != NA && m2 != NA && m1 != m2 ==>
      !EqualsIgnoreCase(names.Name(m1), names.Name(m2))
  }

  /** Decoding a major's own name, in any case, gives that major back. */
  lemma MajorRoundTrip(names: MajorNames, m: Major, s: string)
    requires DistinctNames(names)
    requires m != NA && EqualsIgnoreCase(s, names.Name(m))
    ensures MajorFromText(names, s) == m
  {
    var r := MajorFromText(names, s);
    if r != m {
      assert r != NA;
      EqualsIgnoreCaseIsEquivalence(s, names.Name(m), names.Name(r));
      EqualsIgnoreCaseIsEquivalence(names.Name(m), s, names.Name(r));
      assert false;
    }
  }

  /** Lines 373-384: lower-case the string and switch on it; anything else is `NA`. */
  function StatusOfText(s: string): (r: JobPostingStatus.Status)
    ensures r == JobPostingStatus.Open <==> ToLower(s) == "open"
    ensures r == JobPostingStatus.Closed <==> ToLower(s) == "closed"
    ensures r == JobPostingStatus.Pending <==> ToLower(s) == "pending"
    ensures r == JobPostingStatus.NA <==> ToLower(s) !in {"open", "closed", "pending"}
  {
    match ToLower(s)
    case "open" => JobPostingStatus.Open
    case "closed" => JobPostingStatus.Closed
    case "pending" => JobPostingStatus.Pending
    case _ => JobPostingStatus.NA
  }

  /** Decoding a status's `toString` gives the status back; NA comes back through the default branch. */
  lemma StatusRoundTrip(s: JobPostingStatus.Status)
    ensures StatusOfText(JobPostingStatus.ToString(s)) == s
  {
    match s
    case NA => LowerOfDeclared(s, "na");
    case Open => LowerOfDeclared(s, "open");
    case Pending => LowerOfDeclared(s, "pending");
    case Closed => LowerOfDeclared(s, "closed");
  }

  /** `t` is the lower-case form of a status's declared name when it is so character by character. */
  lemma LowerOfDeclared(s: JobPostingStatus.Status, t: string)
    requires |JobPostingStatus.ToString(s)| == |t|
    requires forall i :: 0 <= i < |t| ==> LowerChar(JobPostingStatus.ToString(s)[i]) == t[i]
    ensures ToLower(JobPostingStatus.ToString(s)) == t
  {
  }

  // ---------------------------------------------------------------------
  // The record decoders, each in the order the Java code evaluates its casts
  // ---------------------------------------------------------------------

  /** `obj`'s seven account fields have the types their casts need. */
  predicate AccountTyped(parse: UuidParser, obj: map<Label, JsonValue>)
  {
    && IsIdField(parse, obj, UserId)
    && IsTextField(obj, UserUsername) && IsTextField(obj, UserPassword) && IsTextField(obj, UserEmail)
    && IsTextField(obj, UserFirstName) && IsTextField(obj, UserLastName)
    && Get(obj, UserApproved).JBool?
  }

  /** `obj`'s seven account fields hold the account `a`. */
  predicate AccountFields(parse: UuidParser, obj: map<Label, JsonValue>, a: Account)
  {
    && HasId(parse, obj, UserId, a.id)
    && HasText(obj, UserUsername, a.username) && HasText(obj, UserPassword, a.password)
    && HasText(obj, UserEmail, a.email)
    && HasText(obj, UserFirstName, a.firstName) && HasText(obj, UserLastName, a.lastName)
    && Get(obj, UserApproved) == JBool(a.approved)
  }

  /** The builder calls every user kind shares: id, username, password, email, names, approved. */
  function DecodeAccount(parse: UuidParser, obj: map<Label, JsonValue>): (r: Result<Account>)
    ensures r.Ok? <==> AccountTyped(parse, obj)
    ensures r.Ok? ==> AccountFields(parse, obj, r.value)
  {
    var id :- UuidAt(parse, obj, UserId);
    var username :- TextAt(obj, UserUsername);
    var password :- TextAt(obj, UserPassword);
    var email :- TextAt(obj, UserEmail);
    var firstName :- TextAt(obj, UserFirstName);
    var lastName :- TextAt(obj, UserLastName);
    var approved :- BoolAt(obj, UserApproved);
    Ok(Account(id, username, password, email, firstName, lastName, approved))
  }

  /** Lines 115-122: an admin is its account and nothing else. */
  function DecodeAdmin(parse: UuidParser, v: JsonValue): (r: Result<User>)
    ensures r.Ok? <==> v.JObject? && AccountTyped(parse, v.fields)
    ensures r.Ok? ==> r.value.Admin? && AccountFields(parse, v.fields, r.value.account)
  {
    var obj :- AsRecord(v);
    var account :- DecodeAccount(parse, obj);
    Ok(Admin(account))
  }

  /** The labels an admin record is read from. */
  const AdminLabels: set<Label> :=
    {UserId, UserUsername, UserPassword, UserEmail, UserFirstName, UserLastName, UserApproved}

  /** Admin records never read the removed flag, nor anything but the seven account labels. */
  lemma AdminReadsOnlyAccountLabels(parse: UuidParser, m1: map<Label, JsonValue>, m2: map<Label, JsonValue>)
    requires forall l :: l in AdminLabels ==> Get(m1, l) == Get(m2, l)
    ensures Removed !in AdminLabels
    ensures DecodeAdmin(parse, JObject(m1)) == DecodeAdmin(parse, JObject(m2))
  {
    assert DecodeAccount(parse, m1) == DecodeAccount(parse, m2) by {
      assert UuidAt(parse, m1, UserId) == UuidAt(parse, m2, UserId);
      assert TextAt(m1, UserUsername) == TextAt(m2, UserUsername);
      assert TextAt(m1, UserPassword) == TextAt(m2, UserPassword);
      assert TextAt(m1, UserEmail) == TextAt(m2, UserEmail);
      assert TextAt(m1, UserFirstName) == TextAt(m2, UserFirstName);
      assert TextAt(m1, UserLastName) == TextAt(m2, UserLastName);
      assert BoolAt(m1, UserApproved) == BoolAt(m2, UserApproved);
    }
  }

  /** Lines 157-173: one employment, its details cast one by one. */
  function DecodeEmployment(v: JsonValue): (r: Result<Employment>)
    ensures r.Ok? <==>
      && v.JObject? && IsTextArrayField(v.fields, EmploymentDetails)
      && IsTextField(v.fields, EmploymentCompany) && IsTextField(v.fields, EmploymentTitle)
      && IsTextField(v.fields, EmploymentDates)
    ensures r.Ok? ==>
      && v.JObject? && HasTexts(v.fields, EmploymentDetails, r.value.details)
      && HasText(v.fields, EmploymentCompany, r.value.company) && HasText(v.fields, EmploymentTitle, r.value.title)
      && HasText(v.fields, EmploymentDates, r.value.dates)
  {
    var obj :- AsObject(StudentEmployments, v);
    var details :- TextsAt(obj, EmploymentDetails);
    var company :- TextAt(obj, EmploymentCompany);
    var title :- TextAt(obj, EmploymentTitle);
    var dates :- TextAt(obj, EmploymentDates);
    Ok(Employment(company, title, dates, details))
  }

  /** Lines 181-188: one education. */
  function DecodeEducation(v: JsonValue): (r: Result<Education>)
    ensures r.Ok? <==>
      v.JObject? && IsTextField(v.fields, EducationPlace) && Get(v.fields, EducationGpa).JDouble?
      && IsTextField(v.fields, EducationGradDate)
    ensures r.Ok? ==>
      && v.JObject? && HasText(v.fields, EducationPlace, r.value.place)
      && Get(v.fields, EducationGpa) == JDouble(r.value.gpa)
      && HasText(v.fields, EducationGradDate, r.value.gradDate)
  {
    var obj :- AsObject(StudentEducations, v);
    var place :- TextAt(obj, EducationPlace);
    var gpa :- DoubleAt(obj, EducationGpa);
    var gradDate :- TextAt(obj, EducationGradDate);
    Ok(Education(place, gpa, gradDate))
  }

  /** Lines 192-202: `equalsIgnoreCase` on a `null` major throws; any string decodes. */
  function DecodeMajor(names: MajorNames, obj: map<Label, JsonValue>): (r: Result<Major>)
    ensures r.Ok? <==> Get(obj, StudentMajor).JString?
    ensures r.Ok? ==> r.value == MajorFromText(names, Get(obj, StudentMajor).s)
    ensures Get(obj, StudentMajor).JNull? ==> r == Err(NullValue(StudentMajor))
  {
    var text :- TextAt(obj, StudentMajor);
    if text.None? then Err(NullValue(StudentMajor)) else Ok(MajorFromText(names, text.value))
  }

  /** The student's array fields, each of the right type and, for records, decodable. */
  predicate StudentArraysTyped(obj: map<Label, JsonValue>)
  {
    && IsTextArrayField(obj, StudentSkills)
    && ElementsAt(obj, StudentEmployments).Ok? && MapAll(ElementsAt(obj, StudentEmployments).value, DecodeEmployment).Ok?
    && ElementsAt(obj, StudentEducations).Ok? && MapAll(ElementsAt(obj, StudentEducations).value, DecodeEducation).Ok?
  }

  /** Lines 142-216: the arrays, the major, the account, then the student's own flags. */
  function DecodeStudent(parse: UuidParser, names: MajorNames, v: JsonValue): (r: Result<User>)
    ensures r.Ok? <==>
      && v.JObject? && StudentArraysTyped(v.fields)
      && Get(v.fields, StudentMajor).JString? && AccountTyped(parse, v.fields)
      && Get(v.fields, StudentCreatedResume).JBool? && Get(v.fields, StudentAverageRating).JDouble?
      && Get(v.fields, Removed).JBool?
    ensures r.Ok? ==>
      && v.JObject? && r.value.Student?
      && AccountFields(parse, v.fields, r.value.account)
      && HasTexts(v.fields, StudentSkills, r.value.technicalSkills)
      && r.value.major == MajorFromText(names, Get(v.fields, StudentMajor).s)
      && Get(v.fields, StudentCreatedResume) == JBool(r.value.createdResume)
      && Get(v.fields, StudentAverageRating) == JDouble(r.value.averageRating)
      && Get(v.fields, Removed) == JBool(r.value.removed)
  {
    var obj :- AsRecord(v);
    var skills :- TextsAt(obj, StudentSkills);
    var employmentItems :- ElementsAt(obj, StudentEmployments);
    var employments :- MapAll(employmentItems, DecodeEmployment);
    var educationItems :- ElementsAt(obj, StudentEducations);
    var educations :- MapAll(educationItems, DecodeEducation);
    var major :- DecodeMajor(names, obj);
    var account :- DecodeAccount(parse, obj);
    var createdResume :- BoolAt(obj, StudentCreatedResume);
    var averageRating :- DoubleAt(obj, StudentAverageRating);
    var removed :- BoolAt(obj, Removed);
    Ok(Student(account, major, createdResume, employments, educations, skills, averageRating, removed))
  }

  /** Lines 236-249. */
  function DecodeEmployer(parse: UuidParser, v: JsonValue): (r: Result<User>)
    ensures r.Ok? <==>
      && v.JObject? && AccountTyped(parse, v.fields) && IsTextField(v.fields, EmployerCompany)
      && Get(v.fields, EmployerAverageRating).JDouble? && Get(v.fields, Removed).JBool?
    ensures r.Ok? ==>
      && v.JObject? && r.value.Employer?
      && AccountFields(parse, v.fields, r.value.account)
      && HasText(v.fields, EmployerCompany, r.value.company)
      && Get(v.fields, EmployerAverageRating) == JDouble(r.value.averageRating)
      && Get(v.fields, Removed) == JBool(r.value.removed)
  {
    var obj :- AsRecord(v);
    var account :- DecodeAccount(parse, obj);
    var company :- TextAt(obj, EmployerCompany);
    var averageRating :- DoubleAt(obj, EmployerAverageRating);
    var removed :- BoolAt(obj, Removed);
    Ok(Employer(account, company, averageRating, removed))
  }

  /** Lines 269-280. */
  function DecodeProfessor(parse: UuidParser, v: JsonValue): (r: Result<User>)
    ensures r.Ok? <==> v.JObject? && AccountTyped(parse, v.fields) && Get(v.fields, Removed).JBool?
    ensures r.Ok? ==>
      && v.JObject? && r.value.Professor?
      && AccountFields(parse, v.fields, r.value.account)
      && Get(v.fields, Removed) == JBool(r.value.removed)
  {
    var obj :- AsRecord(v);
    var account :- DecodeAccount(parse, obj);
    var removed :- BoolAt(obj, Removed);
    Ok(Professor(account, removed))
  }

  /**
   * Lines 300-331: reviewee first, then reviewer, then the scalar fields.
   * The `(JSONObject)` cast lets `null` through, and the record is first dereferenced
   * inside the search loop; with no users stored that loop never runs, so a `null`
   * record fails as "Student not found".
   */
  function DecodeReview(parse: UuidParser, users: seq<User>, v: JsonValue): (r: Result<Review>)
    ensures v.JNull? ==> r == Err(if users == [] then NoSuchUser(ReviewReviewee) else NullRecord)
    ensures r.Ok? <==>
      && v.JObject?
      && ResolveUser(parse, users, ReviewReviewee, Get(v.fields, ReviewReviewee)).Ok?
      && ResolveUser(parse, users, ReviewReviewer, Get(v.fields, ReviewReviewer)).Ok?
      && IsIdField(parse, v.fields, ReviewId) && Get(v.fields, ReviewRating).JLong?
      && IsTextField(v.fields, ReviewComment) && Get(v.fields, Removed).JBool?
    ensures r.Ok? ==>
      && v.JObject?
      && ResolveUser(parse, users, ReviewReviewee, Get(v.fields, ReviewReviewee)) == Ok(r.value.reviewee)
      && ResolveUser(parse, users, ReviewReviewer, Get(v.fields, ReviewReviewer)) == Ok(r.value.reviewer)
      && HasId(parse, v.fields, ReviewId, r.value.id)
      && Get(v.fields, ReviewRating).JLong? && r.value.rating == NarrowToInt(Get(v.fields, ReviewRating).n)
      && HasText(v.fields, ReviewComment, r.value.comment)
      && Get(v.fields, Removed) == JBool(r.value.removed)
  {
    if v.JNull? && users == [] then Err(NoSuchUser(ReviewReviewee))
    else
      var obj :- AsRecord(v);
      var reviewee :- ResolveUser(parse, users, ReviewReviewee, Get(obj, ReviewReviewee));
      var reviewer :- ResolveUser(parse, users, ReviewReviewer, Get(obj, ReviewReviewer));
      var id :- UuidAt(parse, obj, ReviewId);
      var rating :- LongAt(obj, ReviewRating);
      var comment :- TextAt(obj, ReviewComment);
      var removed :- BoolAt(obj, Removed);
      Ok(Review(id, reviewer, reviewee, NarrowToInt(rating), comment, removed))
  }

  /** Lines 373-384 on the record: `toLowerCase` on a `null` status throws; any string decodes. */
  function DecodeStatus(obj: map<Label, JsonValue>): (r: Result<JobPostingStatus.Status>)
    ensures r.Ok? <==> Get(obj, PostingStatus).JString?
    ensures r.Ok? ==> r.value == StatusOfText(Get(obj, PostingStatus).s)
    ensures Get(obj, PostingStatus).JNull? ==> r == Err(NullValue(PostingStatus))
  {
    var text :- TextAt(obj, PostingStatus);
    if text.None? then Err(NullValue(PostingStatus)) else Ok(StatusOfText(text.value))
  }

  /** The applicant ids of lines 387-394, all parsed before any is looked up. */
  function ApplicantIds(parse: UuidParser, items: seq<JsonValue>): (r: Result<seq<Uuid>>)
    ensures r.Ok? <==> forall j :: 0 <= j < |items| ==> items[j].JString? && parse(items[j].s).Some?
    ensures r.Ok? ==> |r.value| == |items| && forall j :: 0 <= j < |items| ==>
      items[j].JString? && parse(items[j].s) == Some(r.value[j])
  {
    var f := (e: JsonValue) => UuidOf(parse, PostingApplicants, e);
    var r := MapAll(items, f);
    assert r.Ok? ==> forall j :: 0 <= j < |items| ==> f(items[j]) == Ok(r.value[j]);
    r
  }

  /** The applicants array parses to ids that all name stored students. */
  predicate ApplicantsTyped(parse: UuidParser, users: seq<User>, obj: map<Label, JsonValue>)
  {
    && ElementsAt(obj, PostingApplicants).Ok?
    && ApplicantIds(parse, ElementsAt(obj, PostingApplicants).value).Ok?
    && ResolveApplicants(users, ApplicantIds(parse, ElementsAt(obj, PostingApplicants).value).value).Ok?
  }

  /**
   * Lines 351-420: employer, requirements, status, applicants, then the scalar fields.
   * As for reviews, a `null` record with no users stored fails as "Employer not found".
   */
  function DecodePosting(parse: UuidParser, users: seq<User>, v: JsonValue): (r: Result<JobPosting>)
    ensures v.JNull? ==> r == Err(if users == [] then NoSuchUser(PostingEmployer) else NullRecord)
    ensures r.Ok? <==>
      && v.JObject?
      && ResolveEmployer(parse, users, Get(v.fields, PostingEmployer)).Ok?
      && IsTextArrayField(v.fields, PostingRequirements) && Get(v.fields, PostingStatus).JString?
      && ApplicantsTyped(parse, users, v.fields)
      && IsIdField(parse, v.fields, PostingId)
      && IsTextField(v.fields, PostingTitle) && IsTextField(v.fields, PostingDescription)
      && Get(v.fields, PostingHourlyWage).JDouble? && Get(v.fields, Removed).JBool?
    ensures r.Ok? ==>
      && v.JObject?
      && ResolveEmployer(parse, users, Get(v.fields, PostingEmployer)) == Ok(r.value.employer)
      && HasTexts(v.fields, PostingRequirements, r.value.requirements)
      && r.value.status == StatusOfText(Get(v.fields, PostingStatus).s)
      && HasId(parse, v.fields, PostingId, r.value.id)
      && HasText(v.fields, PostingTitle, r.value.jobTitle)
      && HasText(v.fields, PostingDescription, r.value.description)
      && Get(v.fields, PostingHourlyWage) == JDouble(r.value.hourlyWage)
      && Get(v.fields, Removed) == JBool(r.value.removed)
  {
    if v.JNull? && users == [] then Err(NoSuchUser(PostingEmployer))
    else
      var obj :- AsRecord(v);
      var employer :- ResolveEmployer(parse, users, Get(obj, PostingEmployer));
      var requirements :- TextsAt(obj, PostingRequirements);
      var status :- DecodeStatus(obj);
      var idItems :- ElementsAt(obj, PostingApplicants);
      var ids :- ApplicantIds(parse, idItems);
      var applicants :- ResolveApplicants(users, ids);
      var id :- UuidAt(parse, obj, PostingId);
      var jobTitle :- TextAt(obj, PostingTitle);
      var description :- TextAt(obj, PostingDescription);
      var hourlyWage :- DoubleAt(obj, PostingHourlyWage);
      var removed :- BoolAt(obj, Removed);
      Ok(JobPosting(id, employer, jobTitle, description, requirements, hourlyWage, status, applicants, removed))
  }

  // ---------------------------------------------------------------------
  // Arrays inside a record
  // ---------------------------------------------------------------------

  /**
   * An array field decoded element by element: a missing or `null` array gives the
   * empty list; a present one gives its elements' decodings in their order.
   */
  lemma ArrayFieldDecoded<T>(obj: map<Label, JsonValue>, l: Label, f: JsonValue -> Result<T>, vs: seq<T>)
    requires ElementsAt(obj, l).Ok? && MapAll(ElementsAt(obj, l).value, f) == Ok(vs)
    ensures Get(obj, l) == JNull ==> vs == []
    ensures Get(obj, l).JArray? ==>
      && |vs| == |Get(obj, l).elems|
      && forall i :: 0 <= i < |vs| ==> f(Get(obj, l).elems[i]) == Ok(vs[i])
  {
  }

  /** Skills, employments and educations of a decoded student (lines 144-190). */
  lemma StudentArrays(parse: UuidParser, names: MajorNames, v: JsonValue)
    requires DecodeStudent(parse, names, v).Ok?
    ensures v.JObject?
    ensures var st := DecodeStudent(parse, names, v).value;
      && (Get(v.fields, StudentSkills) == JNull ==> st.technicalSkills == [])
      && (Get(v.fields, StudentSkills).JArray? ==>
            && |st.technicalSkills| == |Get(v.fields, StudentSkills).elems|
            && forall i :: 0 <= i < |st.technicalSkills| ==>
                 AsText(StudentSkills, Get(v.fields, StudentSkills).elems[i]) == Ok(st.technicalSkills[i]))
      && (Get(v.fields, StudentEmployments) == JNull ==> st.employments == [])
      && (Get(v.fields, StudentEmployments).JArray? ==>
            && |st.employments| == |Get(v.fields, StudentEmployments).elems|
            && forall i :: 0 <= i < |st.employments| ==>
                 DecodeEmployment(Get(v.fields, StudentEmployments).elems[i]) == Ok(st.employments[i]))
      && (Get(v.fields, StudentEducations) == JNull ==> st.educations == [])
      && (Get(v.fields, StudentEducations).JArray? ==>
            && |st.educations| == |Get(v.fields, StudentEducations).elems|
            && forall i :: 0 <= i < |st.educations| ==>
                 DecodeEducation(Get(v.fields, StudentEducations).elems[i]) == Ok(st.educations[i]))
  {
    var obj := v.fields;
    var st := DecodeStudent(parse, names, v).value;
    ArrayFieldDecoded(obj, StudentSkills, (e: JsonValue) => AsText(StudentSkills, e), st.technicalSkills);
    ArrayFieldDecoded(obj, StudentEmployments, DecodeEmployment, st.employments);
    ArrayFieldDecoded(obj, StudentEducations, DecodeEducation, st.educations);
  }

  /** The details of a decoded employment (lines 159-166). */
  lemma EmploymentDetailsDecoded(v: JsonValue)
    requires DecodeEmployment(v).Ok?
    ensures v.JObject?
    ensures var e := DecodeEmployment(v).value;
      && (Get(v.fields, EmploymentDetails) == JNull ==> e.details == [])
      && (Get(v.fields, EmploymentDetails).JArray? ==>
            && |e.details| == |Get(v.fields, EmploymentDetails).elems|
            && forall i :: 0 <= i < |e.details| ==>
                 AsText(EmploymentDetails, Get(v.fields, EmploymentDetails).elems[i]) == Ok(e.details[i]))
  {
    var e := DecodeEmployment(v).value;
    ArrayFieldDecoded(v.fields, EmploymentDetails, (d: JsonValue) => AsText(EmploymentDetails, d), e.details);
  }

  /**
   * The requirements and applicants of a decoded posting (lines 365-371, 386-410):
   * a missing array is empty; applicants are the students first matching the listed
   * ids, one per id, in listed order.
   */
  lemma PostingArrays(parse: UuidParser, users: seq<User>, v: JsonValue)
    requires DecodePosting(parse, users, v).Ok?
    ensures v.JObject?
    ensures var p := DecodePosting(parse, users, v).value;
      && (Get(v.fields, PostingRequirements) == JNull ==> p.requirements == [])
      && (Get(v.fields, PostingRequirements).JArray? ==>
            && |p.requirements| == |Get(v.fields, PostingRequirements).elems|
            && forall i :: 0 <= i < |p.requirements| ==>
                 AsText(PostingRequirements, Get(v.fields, PostingRequirements).elems[i]) == Ok(p.requirements[i]))
      && (Get(v.fields, PostingApplicants) == JNull ==> p.applicants == [])
      && (Get(v.fields, PostingApplicants).JArray? ==>
            && |p.applicants| == |Get(v.fields, PostingApplicants).elems|
            && forall i :: 0 <= i < |p.applicants| ==>
                 && UuidOf(parse, PostingApplicants, Get(v.fields, PostingApplicants).elems[i]).Ok?
                 && IsFirstMatch(users, UuidOf(parse, PostingApplicants, Get(v.fields, PostingApplicants).elems[i]).value,
                                 p.applicants[i])
                 && users[p.applicants[i]].Student?)
  {
    var obj := v.fields;
    var p := DecodePosting(parse, users, v).value;
    ArrayFieldDecoded(obj, PostingRequirements, (e: JsonValue) => AsText(PostingRequirements, e), p.requirements);
    var idItems := ElementsAt(obj, PostingApplicants).value;
    var ids := ApplicantIds(parse, idItems).value;
    ArrayFieldDecoded(obj, PostingApplicants, (e: JsonValue) => UuidOf(parse, PostingApplicants, e), ids);
    ApplicantsResolveInOrder(users, ids);
  }

  // ---------------------------------------------------------------------
  // Reading one file, and the whole load
  // ---------------------------------------------------------------------

  /** What `new FileReader(path)` followed by `parser.parse(reader)` yields. */
  datatype FileInput = Unreadable | Parsed(json: JsonValue)

  /**
   * One `readX` method: the file must hold an array; its records are decoded until
   * the first failure. A file holding `null` gives nothing; only the admin reader
   * (`nullIsError`) dereferences it without the null check and so reports an error.
   */
  function ReadFile<T>(file: FileInput, decode: JsonValue -> Result<T>, nullIsError: bool): (r: (seq<T>, Option<ReadError>))
    ensures forall j :: 0 <= j < |r.0| ==>
      file.Parsed? && file.json.JArray? && j < |file.json.elems| && decode(file.json.elems[j]) == Ok(r.0[j])
    ensures r.1.None? <==> (file.Parsed? && file.json.JNull? && !nullIsError)
                           || (file.Parsed? && file.json.JArray?
                               && forall j :: 0 <= j < |file.json.elems| ==> decode(file.json.elems[j]).Ok?)
  {
    match file
    case Unreadable => ([], Some(FileUnreadable))
    case Parsed(JArray(items)) => ReadAll(items, decode)
    case Parsed(JNull) => ([], if nullIsError then Some(NullFile) else None)
    case Parsed(_) => ([], Some(NotAnArray))
  }

  /**
   * When record `k` is the first that fails, the file yields exactly the first `k`
   * decodings, in file order, and reports record `k`.
   */
  lemma ReadStopsAt<T>(file: FileInput, decode: JsonValue -> Result<T>, nullIsError: bool, k: nat)
    requires file.Parsed? && file.json.JArray? && k < |file.json.elems|
    requires forall j :: 0 <= j < k ==> decode(file.json.elems[j]).Ok?
    requires decode(file.json.elems[k]).Err?
    ensures var (list, err) := ReadFile(file, decode, nullIsError);
      && |list| == k
      && (forall j :: 0 <= j < k ==> Ok(list[j]) == decode(file.json.elems[j]))
      && err == Some(RecordFailed(k, decode(file.json.elems[k]).fault))
  {
    var (list, err) := ReadFile(file, decode, nullIsError);
    assert LoadedPrefix(file.json.elems, decode, list, err);
  }

  /**
   * A review whose reviewee or reviewer has no stored user ends its file: only the
   * reviews before it are loaded.
   */
  lemma DanglingReviewEndsFile(parse: UuidParser, users: seq<User>, file: FileInput, k: nat)
    requires file.Parsed? && file.json.JArray? && k < |file.json.elems|
    requires forall j :: 0 <= j < k ==> DecodeReview(parse, users, file.json.elems[j]).Ok?
    requires file.json.elems[k].JObject?
    requires var obj := file.json.elems[k].fields;
      || ResolveUser(parse, users, ReviewReviewee, Get(obj, ReviewReviewee)).Err?
      || ResolveUser(parse, users, ReviewReviewer, Get(obj, ReviewReviewer)).Err?
    ensures |ReviewsRead(parse, users, file).0| == k
    ensures ReviewsRead(parse, users, file).1.Some?
  {
    ReadStopsAt(file, (v: JsonValue) => DecodeReview(parse, users, v), false, k);
  }

  /**
   * A posting whose employer id has no stored user, or names a user who is not an
   * employer, ends its file: only the postings before it are loaded.
   */
  lemma UnresolvedEmployerEndsFile(parse: UuidParser, users: seq<User>, file: FileInput, k: nat)
    requires file.Parsed? && file.json.JArray? && k < |file.json.elems|
    requires forall j :: 0 <= j < k ==> DecodePosting(parse, users, file.json.elems[j]).Ok?
    requires file.json.elems[k].JObject?
    requires var r := ResolveUser(parse, users, PostingEmployer, Get(file.json.elems[k].fields, PostingEmployer));
      r.Err? || !users[r.value].Employer?
    ensures |PostingsRead(parse, users, file).0| == k
    ensures PostingsRead(parse, users, file).1.Some?
  {
    ReadStopsAt(file, (v: JsonValue) => DecodePosting(parse, users, v), false, k);
  }

  /** The six inputs of `read()`, in the order it reads them. */
  datatype Files = Files(
    admins: FileInput,
    students: FileInput,
    employers: FileInput,
    professors: FileInput,
    reviews: FileInput,
    postings: FileInput)

  /** The contents of the `DataBlob` after `read()`. */
  datatype Loaded = Loaded(users: seq<User>, reviews: seq<Review>, postings: seq<JobPosting>)

  /** Lines 109-129: only admins, and a file holding `null` is dereferenced and fails. */
  function AdminsRead(parse: UuidParser, file: FileInput): (r: (seq<User>, Option<ReadError>))
    ensures forall j :: 0 <= j < |r.0| ==> r.0[j].Admin?
    ensures file == Parsed(JNull) ==> r == ([], Some(NullFile))
  {
    ReadFile(file, (v: JsonValue) => DecodeAdmin(parse, v), true)
  }

  /** Lines 135-223: only students, and a file holding `null` gives none. */
  function StudentsRead(parse: UuidParser, names: MajorNames, file: FileInput): (r: (seq<User>, Option<ReadError>))
    ensures forall j :: 0 <= j < |r.0| ==> r.0[j].Student?
    ensures file == Parsed(JNull) ==> r == ([], None)
  {
    ReadFile(file, (v: JsonValue) => DecodeStudent(parse, names, v), false)
  }

  /** Lines 229-256: only employers, and a file holding `null` gives none. */
  function EmployersRead(parse: UuidParser, file: FileInput): (r: (seq<User>, Option<ReadError>))
    ensures forall j :: 0 <= j < |r.0| ==> r.0[j].Employer?
    ensures file == Parsed(JNull) ==> r == ([], None)
  {
    ReadFile(file, (v: JsonValue) => DecodeEmployer(parse, v), false)
  }

  /** Lines 262-287: only professors, and a file holding `null` gives none. */
  function ProfessorsRead(parse: UuidParser, file: FileInput): (r: (seq<User>, Option<ReadError>))
    ensures forall j :: 0 <= j < |r.0| ==> r.0[j].Professor?
    ensures file == Parsed(JNull) ==> r == ([], None)
  {
    ReadFile(file, (v: JsonValue) => DecodeProfessor(parse, v), false)
  }

  /** Lines 293-338: each kept review links two of `users`; a file holding `null` gives none. */
  function ReviewsRead(parse: UuidParser, users: seq<User>, file: FileInput): (r: (seq<Review>, Option<ReadError>))
    ensures forall j :: 0 <= j < |r.0| ==> r.0[j].reviewer < |users| && r.0[j].reviewee < |users|
    ensures file == Parsed(JNull) ==> r == ([], None)
  {
    ReadFile(file, (v: JsonValue) => DecodeReview(parse, users, v), false)
  }

  /** Lines 344-427: each kept posting's employer is an employer of `users`; a file holding `null` gives none. */
  function PostingsRead(parse: UuidParser, users: seq<User>, file: FileInput): (r: (seq<JobPosting>, Option<ReadError>))
    ensures forall j :: 0 <= j < |r.0| ==> r.0[j].employer < |users| && users[r.0[j].employer].Employer?
    ensures file == Parsed(JNull) ==> r == ([], None)
  {
    ReadFile(file, (v: JsonValue) => DecodePosting(parse, users, v), false)
  }

  /**
   * Lines 67-101: all users first, then reviews and postings, both resolved against
   * every stored user. Records a file drops are not stored.
   */
  function Load(parse: UuidParser, names: MajorNames, files: Files): (r: Loaded)
    ensures |r.users| == |AdminsRead(parse, files.admins).0| + |StudentsRead(parse, names, files.students).0|
                         + |EmployersRead(parse, files.employers).0| + |ProfessorsRead(parse, files.professors).0|
    ensures r.reviews == ReviewsRead(parse, r.users, files.reviews).0
    ensures r.postings == PostingsRead(parse, r.users, files.postings).0
    ensures forall j :: 0 <= j < |r.reviews| ==> r.reviews[j].reviewer < |r.users| && r.reviews[j].reviewee < |r.users|
  {
    var users := AdminsRead(parse, files.admins).0 + StudentsRead(parse, names, files.students).0
               + EmployersRead(parse, files.employers).0 + ProfessorsRead(parse, files.professors).0;
    Loaded(users, ReviewsRead(parse, users, files.reviews).0, PostingsRead(parse, users, files.postings).0)
  }

  /** Every record a reader keeps is of the kind that reader builds. */
  lemma ReadKinds(parse: UuidParser, names: MajorNames, files: Files)
    ensures forall u :: u in AdminsRead(parse, files.admins).0 ==> u.Admin?
    ensures forall u :: u in StudentsRead(parse, names, files.students).0 ==> u.Student?
    ensures forall u :: u in EmployersRead(parse, files.employers).0 ==> u.Employer?
    ensures forall u :: u in ProfessorsRead(parse, files.professors).0 ==> u.Professor?
  {
    forall u | u in AdminsRead(parse, files.admins).0 ensures u.Admin? {
      var j :| 0 <= j < |AdminsRead(parse, files.admins).0| && AdminsRead(parse, files.admins).0[j] == u;
      assert DecodeAdmin(parse, files.admins.json.elems[j]) == Ok(u);
    }
    forall u | u in StudentsRead(parse, names, files.students).0 ensures u.Student? {
      var j :| 0 <= j < |StudentsRead(parse, names, files.students).0| && StudentsRead(parse, names, files.students).0[j] == u;
      assert DecodeStudent(parse, names, files.students.json.elems[j]) == Ok(u);
    }
    forall u | u in EmployersRead(parse, files.employers).0 ensures u.Employer? {
      var j :| 0 <= j < |EmployersRead(parse, files.employers).0| && EmployersRead(parse, files.employers).0[j] == u;
      assert DecodeEmployer(parse, files.employers.json.elems[j]) == Ok(u);
    }
    forall u | u in ProfessorsRead(parse, files.professors).0 ensures u.Professor? {
      var j :| 0 <= j < |ProfessorsRead(parse, files.professors).0| && ProfessorsRead(parse, files.professors).0[j] == u;
      assert DecodeProfessor(parse, files.professors.json.elems[j]) == Ok(u);
    }
  }

  /**
   * Users are stored admins first, then students, employers and professors, each
   * block in its file's order; a block is exactly what its own file yields.
   */
  lemma LoadOrder(parse: UuidParser, names: MajorNames, files: Files)
    ensures UserBlocksOf(Load(parse, names, files).users, AdminsRead(parse, files.admins).0,
                         StudentsRead(parse, names, files.students).0, EmployersRead(parse, files.employers).0,
                         ProfessorsRead(parse, files.professors).0)
  {
    LoadUsers(parse, names, files);
    UserBlocks(Load(parse, names, files).users, AdminsRead(parse, files.admins).0,
               StudentsRead(parse, names, files.students).0, EmployersRead(parse, files.employers).0,
               ProfessorsRead(parse, files.professors).0);
  }

  /** The loaded users are the four files' users, concatenated. */
  lemma LoadUsers(parse: UuidParser, names: MajorNames, files: Files)
    ensures Load(parse, names, files).users
            == AdminsRead(parse, files.admins).0 + StudentsRead(parse, names, files.students).0
               + EmployersRead(parse, files.employers).0 + ProfessorsRead(parse, files.professors).0
  {
  }

  /**
   * `users` is `admins`, `students`, `employers` and `professors` one after another,
   * each block holding only its own kind of user.
   */
  predicate UserBlocksOf(users: seq<User>, admins: seq<User>, students: seq<User>, employers: seq<User>, professors: seq<User>)
  {
    var a, s, e := |admins|, |admins| + |students|, |admins| + |students| + |employers|;
    && |users| == e + |professors|
    && users[..a] == admins && users[a..s] == students && users[s..e] == employers && users[e..] == professors
    && (forall i :: 0 <= i < a ==> users[i].Admin?)
    && (forall i :: a <= i < s ==> users[i].Student?)
    && (forall i :: s <= i < e ==> users[i].Employer?)
    && (forall i :: e <= i < |users| ==> users[i].Professor?)
  }

  /** Four concatenated user lists, one kind per list, form that block structure. */
  lemma UserBlocks(users: seq<User>, admins: seq<User>, students: seq<User>, employers: seq<User>, professors: seq<User>)
    requires users == admins + students + employers + professors
    requires forall j :: 0 <= j < |admins| ==> admins[j].Admin?
    requires forall j :: 0 <= j < |students| ==> students[j].Student?
    requires forall j :: 0 <= j < |employers| ==> employers[j].Employer?
    requires forall j :: 0 <= j < |professors| ==> professors[j].Professor?
    ensures UserBlocksOf(users, admins, students, employers, professors)
  {
    var a, s, e := |admins|, |admins| + |students|, |admins| + |students| + |employers|;
    assert users[..a] == admins;
    assert users[a..s] == students;
    assert users[s..e] == employers;
    assert users[e..] == professors;
    forall i | 0 <= i < |users|
      ensures i < a ==> users[i].Admin?
      ensures a <= i < s ==> users[i].Student?
      ensures s <= i < e ==> users[i].Employer?
      ensures e <= i ==> users[i].Professor?
    {
      if i < a {
        assert users[i] == admins[i];
      } else if i < s {
        assert users[i] == students[i - a];
      } else if i < e {
        assert users[i] == employers[i - s];
      } else {
        assert users[i] == professors[i - e];
      }
    }
  }

  /** A loaded review's reviewer and reviewee are positions in the user sequence. */
  lemma ReviewLinksResolve(parse: UuidParser, users: seq<User>, file: FileInput)
    ensures forall r :: r in ReviewsRead(parse, users, file).0 ==> r.reviewer < |users| && r.reviewee < |users|
  {
    var reviews := ReviewsRead(parse, users, file).0;
    forall r | r in reviews
      ensures r.reviewer < |users| && r.reviewee < |users|
    {
      var j :| 0 <= j < |reviews| && reviews[j] == r;
      assert DecodeReview(parse, users, file.json.elems[j]) == Ok(r);
    }
  }

  /** A decoded posting's employer is an employer and its applicants are students. */
  lemma PostingLinksOf(parse: UuidParser, users: seq<User>, item: JsonValue, p: JobPosting)
    requires DecodePosting(parse, users, item) == Ok(p)
    ensures p.employer < |users| && users[p.employer].Employer?
    ensures forall a :: a in p.applicants ==> a < |users| && users[a].Student?
  {
    PostingArrays(parse, users, item);
    forall a | a in p.applicants ensures a < |users| && users[a].Student? {
      var i :| 0 <= i < |p.applicants| && p.applicants[i] == a;
    }
  }

  /** A loaded posting's employer is an employer and its applicants are students. */
  lemma PostingLinksResolve(parse: UuidParser, users: seq<User>, file: FileInput)
    ensures forall p :: p in PostingsRead(parse, users, file).0 ==>
      && p.employer < |users| && users[p.employer].Employer?
      && forall a :: a in p.applicants ==> a < |users| && users[a].Student?
  {
    var postings := PostingsRead(parse, users, file).0;
    forall j | 0 <= j < |postings|
      ensures forall a :: a in postings[j].applicants ==> a < |users| && users[a].Student?
    {
      PostingLinksOf(parse, users, file.json.elems[j], postings[j]);
    }
  }

  /**
   * Every link in a loaded store points into the user sequence: a review's reviewer
   * and reviewee exist, a posting's employer is an employer and its applicants are
   * students.
   */
  lemma LoadIntegrity(parse: UuidParser, names: MajorNames, files: Files)
    ensures var st := Load(parse, names, files);
      && (forall r :: r in st.reviews ==> r.reviewer < |st.users| && r.reviewee < |st.users|)
      && (forall p :: p in st.postings ==>
            && p.employer < |st.users| && st.users[p.employer].Employer?
            && forall a :: a in p.applicants ==> a < |st.users| && st.users[a].Student?)
  {
    var st := Load(parse, names, files);
    ReviewLinksResolve(parse, st.users, files.reviews);
    PostingLinksResolve(parse, st.users, files.postings);
  }
}
