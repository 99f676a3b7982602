/**
 * The reader itself, written the way `JsonDataReader` works: every `readX`
 * grows a list inside a loop over the file's records, the id links are found
 * by linear searches that stop at the first match, and `read` fills a fresh
 * `DataBlob` through its `add` methods.
 *
 * Each method is proved to compute what the functions of `Decoding` describe.
 * Line numbers in this module refer to src/database/JsonDataReader.java.
 */
module JsonDataReader {
  import opened Json
  import opened DataTypes
  import opened Decoding
  import opened Store

  /**
   * `new FileReader(path)`, `parser.parse`, the `(JSONArray)` cast and the
   * `jsonList != null` guard: the records to loop over, or why there are none.
   * Without the guard (`nullIsError`) the loop dereferences a `null` list.
   * This is the first step of `Decoding.ReadFile`, whose opening match it repeats
   * case for case; `SettleRead` joins the two.
   */
  function OpenRecords(file: FileInput, nullIsError: bool): (r: (seq<JsonValue>, Option<ReadError>))
    ensures r.1.Some? ==> r.0 == []
    ensures r.1.None? ==> file.Parsed? && (file.json.JArray? || (file.json.JNull? && !nullIsError))
  {
    match file
    case Unreadable => ([], Some(FileUnreadable))
    case Parsed(JArray(items)) => (items, None)
    case Parsed(JNull) => ([], if nullIsError then Some(NullFile) else None)
    case Parsed(_) => ([], Some(NotAnArray))
  }

  /** A loop over the opened records that stops at the first failure reads the file as `ReadFile` does. */
  lemma SettleRead<T>(file: FileInput, decode: JsonValue -> Result<T>, nullIsError: bool,
                      list: seq<T>, err: Option<ReadError>)
    requires var (items, openErr) := OpenRecords(file, nullIsError);
      if openErr.Some? then list == [] && err == openErr else LoadedPrefix(items, decode, list, err)
    ensures (list, err) == ReadFile(file, decode, nullIsError)
  {
    var (items, openErr) := OpenRecords(file, nullIsError);
    if openErr.None? {
      var (list', err') := ReadFile(file, decode, nullIsError);
      if file.json.JArray? {
        LoadedPrefixUnique(items, decode, list, err, list', err');
      }
    }
  }

  /** One more record decoded: the grown list holds the decodings of one more record. */
  lemma PrefixGrows<T>(items: seq<JsonValue>, decode: JsonValue -> Result<T>, list: seq<T>, x: T)
    requires |list| < |items| && forall j :: 0 <= j < |list| ==> decode(items[j]) == Ok(list[j])
    requires decode(items[|list|]) == Ok(x)
    ensures forall j :: 0 <= j < |list| + 1 ==> decode(items[j]) == Ok((list + [x])[j])
  {
  }

  /** The `for (Object o : array) list.add((String) o)` loops. */
  method CastTexts(l: Label, items: seq<JsonValue>) returns (r: Result<seq<Text>>)
    ensures r == TextsOf(l, items)
  {
    var texts: seq<Text> := [];
    var i := 0;
    while i < |items|
      invariant 0 <= i <= |items| && |texts| == i
      invariant forall j :: 0 <= j < i ==> AsText(l, items[j]) == Ok(texts[j])
    {
      var t := AsText(l, items[i]);
      if t.Err? {
        MapAllFirstFault(items, (e: JsonValue) => AsText(l, e), i);
        return Err(t.fault);
      }
      texts := texts + [t.value];
      i := i + 1;
    }
    MapAllAllOk(items, (e: JsonValue) => AsText(l, e), texts);
    return Ok(texts);
  }

  /** Lines 157-173: one employment, with its own loop over the details. */
  method DecodeEmploymentRecord(v: JsonValue) returns (r: Result<Employment>)
    ensures r == DecodeEmployment(v)
  {
    var obj :- AsObject(StudentEmployments, v);
    var detailItems :- ElementsAt(obj, EmploymentDetails);
    var details :- CastTexts(EmploymentDetails, detailItems);
    var company :- TextAt(obj, EmploymentCompany);
    var title :- TextAt(obj, EmploymentTitle);
    var dates :- TextAt(obj, EmploymentDates);
    return Ok(Employment(company, title, dates, details));
  }

  /** Lines 152-175: the employments loop. */
  method DecodeEmployments(items: seq<JsonValue>) returns (r: Result<seq<Employment>>)
    ensures r == MapAll(items, DecodeEmployment)
  {
    var employments: seq<Employment> := [];
    var i := 0;
    while i < |items|
      invariant 0 <= i <= |items| && |employments| == i
      invariant forall j :: 0 <= j < i ==> DecodeEmployment(items[j]) == Ok(employments[j])
    {
      var e := DecodeEmploymentRecord(items[i]);
      if e.Err? {
        MapAllFirstFault(items, DecodeEmployment, i);
        return Err(e.fault);
      }
      employments := employments + [e.value];
      i := i + 1;
    }
    MapAllAllOk(items, DecodeEmployment, employments);
    return Ok(employments);
  }

  /** Lines 177-190: the educations loop. */
  method DecodeEducations(items: seq<JsonValue>) returns (r: Result<seq<Education>>)
    ensures r == MapAll(items, DecodeEducation)
  {
    var educations: seq<Education> := [];
    var i := 0;
    while i < |items|
      invariant 0 <= i <= |items| && |educations| == i
      invariant forall j :: 0 <= j < i ==> DecodeEducation(items[j]) == Ok(educations[j])
    {
      var e := DecodeEducation(items[i]);
      if e.Err? {
        MapAllFirstFault(items, DecodeEducation, i);
        return Err(e.fault);
      }
      educations := educations + [e.value];
      i := i + 1;
    }
    MapAllAllOk(items, DecodeEducation, educations);
    return Ok(educations);
  }

  /** The search loop of lines 397-405: the position of the first user with `id`. */
  method FindUserIndex(users: seq<User>, id: Uuid) returns (r: Option<UserRef>)
    ensures r == FindUser(users, id)
  {
    var i := 0;
    while i < |users|
      invariant 0 <= i <= |users|
      invariant forall j :: 0 <= j < i ==> users[j].Id() != id
    {
      if users[i].Id() == id {
        assert IsFirstMatch(users, id, i);
        return Some(i);
      }
      i := i + 1;
    }
    return None;
  }

  class JsonDataReader {
    /** The contents of the six files, standing for the six paths the reader is built with. */
    const files: Files
    const parse: UuidParser
    const names: MajorNames
    var dataBlob: DataBlob?

    constructor (files: Files, parse: UuidParser, names: MajorNames)
      ensures this.files == files && this.parse == parse && this.names == names
      ensures dataBlob == null
    {
      this.files := files;
      this.parse := parse;
      this.names := names;
      dataBlob := null;
    }

    /**
     * Lines 67-101: a fresh store holding this file set's users, admins first, then
     * the reviews and postings resolved against all of them. The errors each
     * `readX` reports are only printed, so `read` drops them.
     */
    method Read() returns (blob: DataBlob)
      modifies this
      ensures fresh(blob) && dataBlob == blob
      ensures Loaded(blob.users, blob.reviews, blob.postings) == Load(parse, names, files)
    {
      blob := new DataBlob();
      dataBlob := blob;

      var admins, _ := ReadAdministrators();
      AddUsers(admins);
      assert blob.users == admins;
      var students, _ := ReadStudents();
      AddUsers(students);
      assert blob.users == admins + students;
      var employers, _ := ReadEmployers();
      AddUsers(employers);
      assert blob.users == admins + students + employers;
      var professors, _ := ReadProfessors();
      AddUsers(professors);
      assert blob.users == admins + students + employers + professors;
      assert blob.reviews == [] && blob.postings == [];

      var reviews, _ := ReadReviews();
      AddReviews(reviews);
      var postings, _ := ReadJobPostings();
      AddJobPostings(postings);
    }

    /** One of the `for (X x : list) dataBlob.addUser(x)` loops. */
    method AddUsers(list: seq<User>)
      requires dataBlob != null
      modifies dataBlob
      ensures dataBlob.users == old(dataBlob.users) + list
      ensures dataBlob.reviews == old(dataBlob.reviews) && dataBlob.postings == old(dataBlob.postings)
    {
      var i := 0;
      while i < |list|
        invariant 0 <= i <= |list|
        invariant dataBlob.users == old(dataBlob.users) + list[..i]
        invariant dataBlob.reviews == old(dataBlob.reviews) && dataBlob.postings == old(dataBlob.postings)
      {
        dataBlob.AddUser(list[i]);
        assert list[..i + 1] == list[..i] + [list[i]];
        i := i + 1;
      }
      assert list[..i] == list;
    }

    method AddReviews(list: seq<Review>)
      requires dataBlob != null
      modifies dataBlob
      ensures dataBlob.reviews == old(dataBlob.reviews) + list
      ensures dataBlob.users == old(dataBlob.users) && dataBlob.postings == old(dataBlob.postings)
    {
      var i := 0;
      while i < |list|
        invariant 0 <= i <= |list|
        invariant dataBlob.reviews == old(dataBlob.reviews) + list[..i]
        invariant dataBlob.users == old(dataBlob.users) && dataBlob.postings == old(dataBlob.postings)
      {
        dataBlob.AddReview(list[i]);
        assert list[..i + 1] == list[..i] + [list[i]];
        i := i + 1;
      }
      assert list[..i] == list;
    }

    method AddJobPostings(list: seq<JobPosting>)
      requires dataBlob != null
      modifies dataBlob
      ensures dataBlob.postings == old(dataBlob.postings) + list
      ensures dataBlob.users == old(dataBlob.users) && dataBlob.reviews == old(dataBlob.reviews)
    {
      var i := 0;
      while i < |list|
        invariant 0 <= i <= |list|
        invariant dataBlob.postings == old(dataBlob.postings) + list[..i]
        invariant dataBlob.users == old(dataBlob.users) && dataBlob.reviews == old(dataBlob.reviews)
      {
        dataBlob.AddJobPosting(list[i]);
        assert list[..i + 1] == list[..i] + [list[i]];
        i := i + 1;
      }
      assert list[..i] == list;
    }

    /**
     * Lines 109-129: the admins decoded before the first bad record, and that
     * record's failure; there is no `null` check on the parsed list.
     */
    method ReadAdministrators() returns (list: seq<User>, err: Option<ReadError>)
      ensures (list, err) == AdminsRead(parse, files.admins)
    {
      var decode := (v: JsonValue) => DecodeAdmin(parse, v);
      var items, openErr := OpenRecords(files.admins, true).0, OpenRecords(files.admins, true).1;
      list := [];
      if openErr.Some? {
        err := openErr;
        SettleRead(files.admins, decode, true, list, err);
        return;
      }
      var i := 0;
      while i < |items|
        invariant 0 <= i <= |items| && |list| == i
        invariant forall j :: 0 <= j < i ==> decode(items[j]) == Ok(list[j])
      {
        var admin := DecodeAdmin(parse, items[i]);
        assert decode(items[i]) == admin;
        if admin.Err? {
          err := Some(RecordFailed(i, admin.fault));
          SettleRead(files.admins, decode, true, list, err);
          return;
        }
        PrefixGrows(items, decode, list, admin.value);
        list := list + [admin.value];
        i := i + 1;
      }
      err := None;
      SettleRead(files.admins, decode, true, list, err);
    }

    /** Lines 142-216: one student record, with its inner loops over skills, employments and educations. */
    method DecodeStudentRecord(v: JsonValue) returns (r: Result<User>)
      ensures r == DecodeStudent(parse, names, v)
    {
      var obj :- AsRecord(v);
      var skillItems :- ElementsAt(obj, StudentSkills);
      var skills :- CastTexts(StudentSkills, skillItems);
      var employmentItems :- ElementsAt(obj, StudentEmployments);
      var employments :- DecodeEmployments(employmentItems);
      var educationItems :- ElementsAt(obj, StudentEducations);
      var educations :- DecodeEducations(educationItems);
      var major :- DecodeMajor(names, obj);
      var account :- DecodeAccount(parse, obj);
      var createdResume :- BoolAt(obj, StudentCreatedResume);
      var averageRating :- DoubleAt(obj, StudentAverageRating);
      var removed :- BoolAt(obj, Removed);
      return Ok(Student(account, major, createdResume, employments, educations, skills, averageRating, removed));
    }

    /** Lines 135-223. */
    method ReadStudents() returns (list: seq<User>, err: Option<ReadError>)
      ensures (list, err) == StudentsRead(parse, names, files.students)
    {
      var decode := (v: JsonValue) => DecodeStudent(parse, names, v);
      var items, openErr := OpenRecords(files.students, false).0, OpenRecords(files.students, false).1;
      list := [];
      if openErr.Some? {
        err := openErr;
        SettleRead(files.students, decode, false, list, err);
        return;
      }
      var i := 0;
      while i < |items|
        invariant 0 <= i <= |items| && |list| == i
        invariant forall j :: 0 <= j < i ==> decode(items[j]) == Ok(list[j])
      {
        var student := DecodeStudentRecord(items[i]);
        assert decode(items[i]) == student;
        if student.Err? {
          err := Some(RecordFailed(i, student.fault));
          SettleRead(files.students, decode, false, list, err);
          return;
        }
        PrefixGrows(items, decode, list, student.value);
        list := list + [student.value];
        i := i + 1;
      }
      err := None;
      SettleRead(files.students, decode, false, list, err);
    }

    /** Lines 229-256. */
    method ReadEmployers() returns (list: seq<User>, err: Option<ReadError>)
      ensures (list, err) == EmployersRead(parse, files.employers)
    {
      var decode := (v: JsonValue) => DecodeEmployer(parse, v);
      var items, openErr := OpenRecords(files.employers, false).0, OpenRecords(files.employers, false).1;
      list := [];
      if openErr.Some? {
        err := openErr;
        SettleRead(files.employers, decode, false, list, err);
        return;
      }
      var i := 0;
      while i < |items|
        invariant 0 <= i <= |items| && |list| == i
        invariant forall j :: 0 <= j < i ==> decode(items[j]) == Ok(list[j])
      {
        var employer := DecodeEmployer(parse, items[i]);
        assert decode(items[i]) == employer;
        if employer.Err? {
          err := Some(RecordFailed(i, employer.fault));
          SettleRead(files.employers, decode, false, list, err);
          return;
        }
        PrefixGrows(items, decode, list, employer.value);
        list := list + [employer.value];
        i := i + 1;
      }
      err := None;
      SettleRead(files.employers, decode, false, list, err);
    }

    /** Lines 262-287. */
    method ReadProfessors() returns (list: seq<User>, err: Option<ReadError>)
      ensures (list, err) == ProfessorsRead(parse, files.professors)
    {
      var decode := (v: JsonValue) => DecodeProfessor(parse, v);
      var items, openErr := OpenRecords(files.professors, false).0, OpenRecords(files.professors, false).1;
      list := [];
      if openErr.Some? {
        err := openErr;
        SettleRead(files.professors, decode, false, list, err);
        return;
      }
      var i := 0;
      while i < |items|
        invariant 0 <= i <= |items| && |list| == i
        invariant forall j :: 0 <= j < i ==> decode(items[j]) == Ok(list[j])
      {
        var professor := DecodeProfessor(parse, items[i]);
        assert decode(items[i]) == professor;
        if professor.Err? {
          err := Some(RecordFailed(i, professor.fault));
          SettleRead(files.professors, decode, false, list, err);
          return;
        }
        PrefixGrows(items, decode, list, professor.value);
        list := list + [professor.value];
        i := i + 1;
      }
      err := None;
      SettleRead(files.professors, decode, false, list, err);
    }

    /**
     * The search loops of lines 302-324: the first stored user whose id equals the
     * one under `l`. The id is parsed inside the loop, on every iteration.
     */
    method SearchUser(l: Label, v: JsonValue) returns (r: Result<UserRef>)
      requires dataBlob != null
      ensures r == ResolveUser(parse, dataBlob.users, l, v)
    {
      var users := dataBlob.users;
      var i := 0;
      while i < |users|
        invariant 0 <= i <= |users|
        invariant i > 0 ==> UuidOf(parse, l, v).Ok?
                            && forall j :: 0 <= j < i ==> users[j].Id() != UuidOf(parse, l, v).value
      {
        var id :- UuidOf(parse, l, v);
        if users[i].Id() == id {
          ResolveUserFound(parse, users, l, v, i);
          return Ok(i);
        }
        i := i + 1;
      }
      ResolveUserMissing(parse, users, l, v);
      return Err(NoSuchUser(l));
    }

    /** Lines 299-331: one review, its reviewee searched for first. */
    method DecodeReviewRecord(v: JsonValue) returns (r: Result<Review>)
      requires dataBlob != null
      ensures r == DecodeReview(parse, dataBlob.users, v)
    {
      if v.JNull? && |dataBlob.users| == 0 {
        // the cast lets null through, and the search loop, which would dereference it, never runs
        return Err(NoSuchUser(ReviewReviewee));
      }
      var obj :- AsRecord(v);
      var reviewee :- SearchUser(ReviewReviewee, Get(obj, ReviewReviewee));
      var reviewer :- SearchUser(ReviewReviewer, Get(obj, ReviewReviewer));
      var id :- UuidAt(parse, obj, ReviewId);
      var rating :- LongAt(obj, ReviewRating);
      var comment :- TextAt(obj, ReviewComment);
      var removed :- BoolAt(obj, Removed);
      return Ok(Review(id, reviewer, reviewee, NarrowToInt(rating), comment, removed));
    }

    /** Lines 293-338, against the users already in the store. */
    method ReadReviews() returns (list: seq<Review>, err: Option<ReadError>)
      requires dataBlob != null
      ensures (list, err) == ReviewsRead(parse, dataBlob.users, files.reviews)
    {
      var users := dataBlob.users;
      var decode := (v: JsonValue) => DecodeReview(parse, users, v);
      var items, openErr := OpenRecords(files.reviews, false).0, OpenRecords(files.reviews, false).1;
      list := [];
      if openErr.Some? {
        err := openErr;
        SettleRead(files.reviews, decode, false, list, err);
        return;
      }
      var i := 0;
      while i < |items|
        invariant 0 <= i <= |items| && |list| == i
        invariant forall j :: 0 <= j < i ==> decode(items[j]) == Ok(list[j])
      {
        var review := DecodeReviewRecord(items[i]);
        assert decode(items[i]) == review;
        if review.Err? {
          err := Some(RecordFailed(i, review.fault));
          SettleRead(files.reviews, decode, false, list, err);
          return;
        }
        PrefixGrows(items, decode, list, review.value);
        list := list + [review.value];
        i := i + 1;
      }
      err := None;
      SettleRead(files.reviews, decode, false, list, err);
    }

    /** Lines 353-363: the employer search, with the `(Employer)` cast on the match. */
    method SearchEmployer(v: JsonValue) returns (r: Result<UserRef>)
      requires dataBlob != null
      ensures r == ResolveEmployer(parse, dataBlob.users, v)
    {
      var users := dataBlob.users;
      var i := 0;
      while i < |users|
        invariant 0 <= i <= |users|
        invariant i > 0 ==> UuidOf(parse, PostingEmployer, v).Ok?
                            && forall j :: 0 <= j < i ==> users[j].Id() != UuidOf(parse, PostingEmployer, v).value
      {
        var id :- UuidOf(parse, PostingEmployer, v);
        if users[i].Id() == id {
          assert IsFirstMatch(users, id, i);
          if !users[i].Employer? {
            return Err(WrongUserKind(PostingEmployer));
          }
          return Ok(i);
        }
        i := i + 1;
      }
      return Err(NoSuchUser(PostingEmployer));
    }

    /** Lines 387-394: every applicant id parsed, before any is looked up. */
    method ParseApplicantIds(items: seq<JsonValue>) returns (r: Result<seq<Uuid>>)
      ensures r == ApplicantIds(parse, items)
    {
      var ids: seq<Uuid> := [];
      var i := 0;
      while i < |items|
        invariant 0 <= i <= |items| && |ids| == i
        invariant forall j :: 0 <= j < i ==> UuidOf(parse, PostingApplicants, items[j]) == Ok(ids[j])
      {
        var id := UuidOf(parse, PostingApplicants, items[i]);
        if id.Err? {
          MapAllFirstFault(items, (e: JsonValue) => UuidOf(parse, PostingApplicants, e), i);
          return Err(id.fault);
        }
        ids := ids + [id.value];
        i := i + 1;
      }
      MapAllAllOk(items, (e: JsonValue) => UuidOf(parse, PostingApplicants, e), ids);
      return Ok(ids);
    }

    /** Lines 396-410: each id searched for in turn; the match is cast to `Student`. */
    method SearchApplicants(ids: seq<Uuid>) returns (r: Result<seq<UserRef>>)
      requires dataBlob != null
      ensures r == ResolveApplicants(dataBlob.users, ids)
    {
      var users := dataBlob.users;
      var resolve := (id: Uuid) => ResolveApplicant(users, id);
      var applicants: seq<UserRef> := [];
      var i := 0;
      while i < |ids|
        invariant 0 <= i <= |ids| && |applicants| == i
        invariant forall j :: 0 <= j < i ==> resolve(ids[j]) == Ok(applicants[j])
      {
        var found := FindUserIndex(users, ids[i]);
        if found.None? {
          MapAllFirstFault(ids, resolve, i);
          return Err(NoSuchUser(PostingApplicants));
        }
        if !users[found.value].Student? {
          MapAllFirstFault(ids, resolve, i);
          return Err(WrongUserKind(PostingApplicants));
        }
        applicants := applicants + [found.value];
        i := i + 1;
      }
      MapAllAllOk(ids, resolve, applicants);
      return Ok(applicants);
    }

    /** Lines 350-420: one posting; employer, requirements, status and applicants first. */
    method DecodePostingRecord(v: JsonValue) returns (r: Result<JobPosting>)
      requires dataBlob != null
      ensures r == DecodePosting(parse, dataBlob.users, v)
    {
      if v.JNull? && |dataBlob.users| == 0 {
        return Err(NoSuchUser(PostingEmployer));
      }
      var obj :- AsRecord(v);
      var employer :- SearchEmployer(Get(obj, PostingEmployer));
      var requirementItems :- ElementsAt(obj, PostingRequirements);
      var requirements :- CastTexts(PostingRequirements, requirementItems);
      var status :- DecodeStatus(obj);
      var idItems :- ElementsAt(obj, PostingApplicants);
      var ids :- ParseApplicantIds(idItems);
      var applicants :- SearchApplicants(ids);
      var id :- UuidAt(parse, obj, PostingId);
      var jobTitle :- TextAt(obj, PostingTitle);
      var description :- TextAt(obj, PostingDescription);
      var hourlyWage :- DoubleAt(obj, PostingHourlyWage);
      var removed :- BoolAt(obj, Removed);
      return Ok(JobPosting(id, employer, jobTitle, description, requirements, hourlyWage, status, applicants, removed));
    }

    /** Lines 344-427, against the users already in the store. */
    method ReadJobPostings() returns (list: seq<JobPosting>, err: Option<ReadError>)
      requires dataBlob != null
      ensures (list, err) == PostingsRead(parse, dataBlob.users, files.postings)
    {
      var users := dataBlob.users;
      var decode := (v: JsonValue) => DecodePosting(parse, users, v);
      var items, openErr := OpenRecords(files.postings, false).0, OpenRecords(files.postings, false).1;
      list := [];
      if openErr.Some? {
        err := openErr;
        SettleRead(files.postings, decode, false, list, err);
        return;
      }
      var i := 0;
      while i < |items|
        invariant 0 <= i <= |items| && |list| == i
        invariant forall j :: 0 <= j < i ==> decode(items[j]) == Ok(list[j])
      {
        var posting := DecodePostingRecord(items[i]);
        assert decode(items[i]) == posting;
        if posting.Err? {
          err := Some(RecordFailed(i, posting.fault));
          SettleRead(files.postings, decode, false, list, err);
          return;
        }
        PrefixGrows(items, decode, list, posting.value);
        list := list + [posting.value];
        i := i + 1;
      }
      err := None;
      SettleRead(files.postings, decode, false, list, err);
    }
  }
}
