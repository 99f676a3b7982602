/**
 * The values the JSON parser (json-simple) hands to the reader, and the
 * Java casts the reader applies to them.
 *
 * A cast either yields the Java value or fails the way the JVM would:
 * a `ClassCastException` for a value of another type, a
 * `NullPointerException` when `null` is unboxed or dereferenced.
 * Line numbers in this module refer to src/database/JsonDataReader.java.
 */
module Json {

  datatype Option<+T> = None | Some(value: T)

  /** A Java `String` reference: `None` stands for `null`. */
  type Text = Option<string>

  /** A `java.lang.Double` carried as an opaque bit pattern; no arithmetic is done on it. */
  datatype Double = Double(bits: bv64)

  /**
   * The keys the reader looks up (the constants of `JsonDataLabels`).
   * Their spelling in the files is not part of this model; the labels one record kind
   * reads are taken to be distinct keys.
   */
  datatype Label =
    | UserId | UserUsername | UserPassword | UserEmail | UserFirstName | UserLastName
    | UserApproved | Removed
    | StudentSkills | StudentEmployments | StudentEducations | StudentMajor
    | StudentCreatedResume | StudentAverageRating
    | EmploymentCompany | EmploymentTitle | EmploymentDates | EmploymentDetails
    | EducationPlace | EducationGpa | EducationGradDate
    | EmployerCompany | EmployerAverageRating
    | ReviewId | ReviewReviewer | ReviewReviewee | ReviewRating | ReviewComment
    | PostingId | PostingEmployer | PostingTitle | PostingDescription | PostingRequirements
    | PostingHourlyWage | PostingStatus | PostingApplicants

  /**
   * A parsed JSON value. json-simple produces `Long` for integral numbers and
   * `Double` for the others; the two are different Java types, so a cast to
   * one fails on the other.
   */
  datatype JsonValue =
    | JNull
    | JBool(b: bool)
    | JLong(n: int)
    | JDouble(d: Double)
    | JString(s: string)
    | JArray(elems: seq<JsonValue>)
    | JObject(fields: map<Label, JsonValue>)

  /** Why decoding one record threw. */
  datatype Fault =
    | CastFailed(at: Label)      // ClassCastException on the value under `at`
    | NullValue(at: Label)       // NullPointerException: `null` unboxed or dereferenced
    | MalformedId(at: Label)     // UUID.fromString rejected the string
    | NoSuchUser(at: Label)      // "Student not found" / "Reviewer not found" / "Employer not found"
    | WrongUserKind(at: Label)   // the matched user is not of the kind cast to
    | RecordNotObject               // the array element is not a JSON object
    | NullRecord                    // the array element is `null`

  /** The outcome of a step that may throw. */
  datatype Result<+T> = Ok(value: T) | Err(fault: Fault) {
    predicate IsFailure() { Err? }
    function PropagateFailure<U>(): Result<U> requires Err? { Err(fault) }
    function Extract(): T requires Ok? { value }
  }

  /** `JSONObject.get`: a missing key reads as `null`. */
  function Get(fields: map<Label, JsonValue>, l: Label): (v: JsonValue)
    ensures l !in fields ==> v == JNull
  {
    if l in fields then fields[l] else JNull
  }

  /** The JSON value a `String` cast turns into `t`: `null` for `null`, otherwise that string. */
  function TextValue(t: Text): JsonValue
  {
    if t.None? then JNull else JString(t.value)
  }

  /** `(String) v`: `null` passes the cast and stays `null`. */
  function AsText(l: Label, v: JsonValue): (r: Result<Text>)
    ensures r.Ok? <==> v.JNull? || v.JString?
    ensures r == Ok(None) <==> v.JNull?
    ensures v.JString? ==> r == Ok(Some(v.s))
    ensures r.Ok? ==> v == TextValue(r.value)
  {
    match v
    case JNull => Ok(None)
    case JString(s) => Ok(Some(s))
    case _ => Err(CastFailed(l))
  }

  /** `(boolean) v`: unboxing `null` throws. */
  function AsBool(l: Label, v: JsonValue): (r: Result<bool>)
    ensures r.Ok? <==> v.JBool?
    ensures r.Ok? ==> v == JBool(r.value)
  {
    match v
    case JBool(b) => Ok(b)
    case JNull => Err(NullValue(l))
    case _ => Err(CastFailed(l))
  }

  /** `(double) v`: only a `Double` passes; a `Long` does not. */
  function AsDouble(l: Label, v: JsonValue): (r: Result<Double>)
    ensures r.Ok? <==> v.JDouble?
    ensures r.Ok? ==> v == JDouble(r.value)
  {
    match v
    case JDouble(d) => Ok(d)
    case JNull => Err(NullValue(l))
    case _ => Err(CastFailed(l))
  }

  /** `(long) v`: only a `Long` passes. */
  function AsLong(l: Label, v: JsonValue): (r: Result<int>)
    ensures r.Ok? <==> v.JLong?
    ensures r.Ok? ==> v == JLong(r.value)
  {
    match v
    case JLong(n) => Ok(n)
    case JNull => Err(NullValue(l))
    case _ => Err(CastFailed(l))
  }

  /**
   * `(JSONArray) v` followed by the reader's `if (array != null)` guard:
   * a missing or `null` array contributes no elements.
   */
  function ElementsOf(l: Label, v: JsonValue): (r: Result<seq<JsonValue>>)
    ensures r.Ok? <==> v.JNull? || v.JArray?
    ensures v.JNull? ==> r == Ok([])
    ensures v.JArray? ==> r == Ok(v.elems)
  {
    match v
    case JNull => Ok([])
    case JArray(xs) => Ok(xs)
    case _ => Err(CastFailed(l))
  }

  /** `(JSONObject) v` followed by a dereference (`.get`). */
  function AsObject(l: Label, v: JsonValue): (r: Result<map<Label, JsonValue>>)
    ensures r.Ok? <==> v.JObject?
    ensures r.Ok? ==> v == JObject(r.value)
  {
    match v
    case JObject(m) => Ok(m)
    case JNull => Err(NullValue(l))
    case _ => Err(CastFailed(l))
  }

  /** One element of a top-level record array, cast to `JSONObject` and dereferenced. */
  function AsRecord(v: JsonValue): (r: Result<map<Label, JsonValue>>)
    ensures r.Ok? <==> v.JObject?
    ensures r.Ok? ==> v == JObject(r.value)
    ensures v.JNull? ==> r == Err(NullRecord)
  {
    match v
    case JObject(m) => Ok(m)
    case JNull => Err(NullRecord)
    case _ => Err(RecordNotObject)
  }

  const TwoTo32: int := 0x1_0000_0000

  /**
   * The narrowing conversion `(int)` from `long`: keep the low 32 bits,
   * read as a two's-complement number.
   */
  function NarrowToInt(n: int): (r: int)
    ensures -0x8000_0000 <= r < 0x8000_0000
    ensures (n - r) % TwoTo32 == 0
    ensures -0x8000_0000 <= n < 0x8000_0000 ==> r == n
  {
    var low := n % TwoTo32;
    if low >= 0x8000_0000 then low - TwoTo32 else low
  }
}
