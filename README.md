# Job-search data reader and student menus, modelled in Dafny

This project models the core of a small Java job-search system: a terminal
application where students, employers, professors and admins share job
postings and reviews. The model covers three parts.

- **The load pass of `JsonDataReader`.** It reads six JSON files in a fixed
  order: admins, students, employers, professors, reviews, job postings. Each
  record becomes a typed entity. The user ids inside reviews and postings
  become links to users already loaded: a review's reviewer and reviewee, a
  posting's employer and its applicants. Each link is found by a linear search
  that stops at the first user with that id. A `try` wraps the whole loop of
  each file, so the first bad record ends that file. The records decoded before
  it are kept, and the other files are still read.
- **`JobPostingStatus`.** A closed enum with four constants and their display
  strings.
- **The state changes behind the student menus (`StudentUI`).** Applying to a
  job, removing resume entries by index, setting the major, marking the resume
  as created, and the check order of sign-up. Terminal input is taken out.

The model is built in layers.

- `Json.dfy`: the values the JSON parser produces, and the Java casts applied
  to them. A cast either yields a value or fails the way the JVM would.
  `(String) null` is `null`; unboxing `null` throws; a `Long` is not a `Double`.
- `DataTypes.dfy`: the entities.
  - The store is an arena: a link to a user is the user's position in the
    store's user sequence.
  - A Java `String` that may be `null` is a `Text` (`Option<string>`).
- `Store.dfy`: the `DataBlob` class that `read` fills through its `add` methods.
- `Decoding.dfy`: the reader as functions, and the lemmas about them.
  - Every record decoder evaluates its casts in the order of the Java
    expression.
  - `ReadAll` and `LoadedPrefix` describe the "longest decoded prefix, then the
    first error" outcome of one file.
  - `Load` is the whole `read()`.
- `JsonDataReader.dfy`: the reader as the Java code is written.
  - A class whose methods grow the lists inside loops. The search loops return
    at the first match.
  - `Read` fills a fresh `DataBlob`.
  - Every method is proved to compute the matching `Decoding` function.
- `StudentUI.dfy`: the menu object.
  - Its methods change the stored student or posting in place.
  - The list filter and the choice of posting are specified by functions, and
    lemmas are proved about those functions.

Three behaviours of the reader are worth stating plainly.

- The first bad record ends its file; no record is skipped.
- A missing major, status, rating, id or boolean flag throws and ends the file.
  A missing string reads as `null`, and a missing array as an empty list.
- Nothing checks usernames, emails or applicants for uniqueness when they are
  added. `Database` and `DataBlob` are not part of this model.

## Model

| member | source | states |
|---|---|---|
| `Json.Get` | src/database/JsonDataReader.java:116 | a key the record lacks reads as `null` |
| `Json.AsText` | src/database/JsonDataReader.java:116-121 | `(String)` succeeds exactly on a string or `null`; `null` stays `null` (no failure) |
| `Json.AsBool` | src/database/JsonDataReader.java:122 | `(boolean)` succeeds exactly on a JSON boolean; `null` and other types throw |
| `Json.AsDouble` | src/database/JsonDataReader.java:185 | `(double)` succeeds exactly on a JSON double; a `Long` or `null` throws |
| `Json.AsLong` | src/database/JsonDataReader.java:328 | `(long)` succeeds exactly on a JSON integer |
| `Json.ElementsOf` | src/database/JsonDataReader.java:145-150 | a `null` or missing array gives no elements; a present array gives its elements in order; anything else fails the cast |
| `Json.AsObject` | src/database/JsonDataReader.java:157 | `(JSONObject)` then a dereference succeeds exactly on a JSON object |
| `Json.AsRecord` | src/database/JsonDataReader.java:115 | a top-level element is usable exactly when it is a JSON object |
| `Json.NarrowToInt` | src/database/JsonDataReader.java:328 | `(int)` of a `long`: result in the 32-bit range, congruent to the input modulo 2^32, the input itself when it fits |
| `JavaText.ToLower` | src/database/JsonDataReader.java:374 | same length, each character lower-cased (ASCII letters) |
| `JavaText.ToUpper` | src/database/JsonDataReader.java:194 | same length, each character upper-cased (ASCII letters) |
| `JavaText.EqualsIgnoreCaseIsUpperEquality` | src/database/JsonDataReader.java:194-201 | two strings match ignoring case exactly when their upper-case forms are equal |
| `JavaText.CharEqualsIgnoreCaseIsUpperEquality` | src/database/JsonDataReader.java:194 | two characters match ignoring case exactly when their upper-case forms are equal |
| `JavaText.EqualsIgnoreCaseIsEquivalence` | src/database/JsonDataReader.java:194-201 | matching ignoring case is reflexive, symmetric and transitive |
| `JobPostingStatus.Ordinal` | src/enums/JobPostingStatus.java:2-6 | each status's position in the declaration order NA, OPEN, PENDING, CLOSED |
| `JobPostingStatus.ToString` | src/enums/JobPostingStatus.java:3-16 | `toString` gives the non-empty string the constant was declared with |
| `JobPostingStatus.ExactlyFourStatuses` | src/enums/JobPostingStatus.java:2-16 | every status is one of NA, OPEN, PENDING, CLOSED, these four are distinct, and `toString` gives "NA", "Open", "Pending", "Closed" |
| `JobPostingStatus.ToStringInjective` | src/enums/JobPostingStatus.java:3-6 | distinct statuses have distinct strings |
| `Decoding.ReadAll` | src/database/JsonDataReader.java:111-128 | the list holds the decodings of the first records in order, and either all records decoded or the next one is the first failure and is reported |
| `Decoding.LoadedPrefixUnique` | src/database/JsonDataReader.java:111-128 | the "stop at the first failure" outcome of a file is unique |
| `Decoding.FailureHidesRest` | src/database/JsonDataReader.java:114-124 | records after the first failing one do not change what a file yields; k records are kept |
| `Decoding.MapAll` | src/database/JsonDataReader.java:146-150 | an array inside a record decodes exactly when every element does, to their decodings in order |
| `Decoding.MapAllFirstFault` | src/database/JsonDataReader.java:146-150 | the failure reported is that of the first failing element |
| `Decoding.MapAllAllOk` | src/database/JsonDataReader.java:146-150 | when every element decodes, the array decodes to exactly those values |
| `Decoding.FindUser` | src/database/JsonDataReader.java:399-405 | the result is the first position holding the id; none exactly when no user has it |
| `Decoding.UuidOf` | src/database/JsonDataReader.java:305 | `UUID.fromString((String) v)` succeeds exactly on a string the parser accepts, giving its id |
| `Decoding.FindUserFirst` | src/database/JsonDataReader.java:399-405 | a first match is what the search returns |
| `Decoding.ResolveUser` | src/database/JsonDataReader.java:302-324 | a resolved link is the first user with the parsed id |
| `Decoding.ResolveUserFound` | src/database/JsonDataReader.java:303-309 | a search that stops at the first user with the parsed id resolves to that user |
| `Decoding.ResolveUserMissing` | src/database/JsonDataReader.java:303-312 | with no users stored, or no user holding the parsed id, the link fails with "not found" |
| `Decoding.ResolveUserComplete` | src/database/JsonDataReader.java:302-324 | any stored user with the parsed id gives a link: the search fails only for want of one |
| `Decoding.ResolveEmployer` | src/database/JsonDataReader.java:353-363 | the employer link succeeds exactly when the first match exists and is an employer, and then equals that match |
| `Decoding.ResolveApplicant` | src/database/JsonDataReader.java:397-409 | one applicant id resolves exactly when its first match is a student |
| `Decoding.ResolveApplicants` | src/database/JsonDataReader.java:396-410 | when the list resolves, there is one link per id, each the first user with that id and a student |
| `Decoding.ApplicantsResolveInOrder` | src/database/JsonDataReader.java:386-410 | the list resolves exactly when every id's first match is a student; then one link per id in listed order, repeated ids giving the same student |
| `Decoding.TextsOf` | src/database/JsonDataReader.java:147-149 | the `String` casts succeed exactly when every element is a string or `null`; then one string per element, in order |
| `Decoding.TextsAt` | src/database/JsonDataReader.java:145-150 | a string-array field decodes exactly when it is absent, `null`, or an array of strings and `null`s; the result holds those strings in order, none for a missing array |
| `Decoding.MajorFromText` | src/database/JsonDataReader.java:192-202 | a major other than NA is chosen only when its name matches ignoring case; NA exactly when no name matches |
| `Decoding.MajorRoundTrip` | src/database/JsonDataReader.java:192-202 | with names that do not match each other, any case variant of a major's name decodes to that major |
| `Decoding.StatusOfText` | src/database/JsonDataReader.java:373-384 | OPEN, CLOSED and PENDING exactly for the lower-cased strings "open", "closed" and "pending"; NA for every other string |
| `Decoding.StatusRoundTrip` | src/database/JsonDataReader.java:373-384 | decoding a status's `toString` gives the status back; NA through the default branch |
| `Decoding.DecodeAccount` | src/database/JsonDataReader.java:116-122 | the account fields decode exactly when the id is a parsable string, the five names are strings or `null`, and approved is a boolean; the account holds exactly those values |
| `Decoding.DecodeAdmin` | src/database/JsonDataReader.java:114-123 | an admin record decodes exactly when it is an object whose account fields do; the result is an admin holding them |
| `Decoding.AdminReadsOnlyAccountLabels` | src/database/JsonDataReader.java:116-122 | an admin record's decoding depends only on the seven account fields; the removed flag is not among them |
| `Decoding.DecodeEmployment` | src/database/JsonDataReader.java:157-173 | an employment decodes exactly when it is an object with a string-array details field and string or `null` company, title and dates; the result holds those values |
| `Decoding.DecodeEducation` | src/database/JsonDataReader.java:177-190 | an education decodes exactly when it is an object with string or `null` place and graduation date and a double GPA; the result holds those values |
| `Decoding.DecodeMajor` | src/database/JsonDataReader.java:192-202 | the major decodes exactly when it is a string, to the major its name matches; `null` throws |
| `Decoding.DecodeStudent` | src/database/JsonDataReader.java:141-216 | a student record decodes exactly when its arrays, major, account fields, created flag, rating and removed flag have the types their casts need; the result is a student holding the account, skills, major (as `MajorFromText` names it), flags and rating of the record |
| `Decoding.StudentArrays` | src/database/JsonDataReader.java:144-190 | missing skills, employments or educations give empty lists; present ones keep their elements in order |
| `Decoding.EmploymentDetailsDecoded` | src/database/JsonDataReader.java:159-166 | missing details give an empty list; present ones keep their order |
| `Decoding.DecodeEmployer` | src/database/JsonDataReader.java:235-249 | an employer record decodes exactly when its account fields, company, rating and removed flag have the types their casts need; the result is an employer holding those values |
| `Decoding.DecodeProfessor` | src/database/JsonDataReader.java:268-280 | a professor record decodes exactly when its account fields and removed flag have the types their casts need; the result is a professor holding those values |
| `Decoding.DecodeReview` | src/database/JsonDataReader.java:299-331 | a review decodes exactly when it is an object whose reviewee and reviewer resolve and whose id, rating, comment and removed flag have the types their casts need; the links are the first users with those ids, the rating is the `long` narrowed to `int`, the other fields are the record's; a `null` record fails as "not found" with no users stored and as a bad record otherwise |
| `Decoding.DecodeStatus` | src/database/JsonDataReader.java:373-384 | the status decodes exactly when it is a string, to the status `StatusOfText` gives; `null` throws |
| `Decoding.ApplicantIds` | src/database/JsonDataReader.java:386-394 | the ids parse exactly when every element is a string `UUID.fromString` accepts; then one id per element, in order |
| `Decoding.DecodePosting` | src/database/JsonDataReader.java:350-420 | a posting decodes exactly when it is an object whose employer resolves to an employer, whose applicants resolve to students and whose requirements, status, id, title, description, wage and removed flag have the types their casts need; the result holds the employer link, the requirements in order, the status `StatusOfText` gives, and the record's other fields; a `null` record fails as for reviews |
| `Decoding.ArrayFieldDecoded` | src/database/JsonDataReader.java:145-150 | an array field decoded element by element is empty when missing and follows the elements in order when present |
| `Decoding.PostingArrays` | src/database/JsonDataReader.java:365-410 | missing requirements or applicants give empty lists; applicants are the students first matching the listed ids, one per id, in order |
| `Decoding.ReadFile` | src/database/JsonDataReader.java:111-113 | every kept record is the decoding of the file's record at that position; no error exactly when the file is a fully decodable array, or `null` with the null check present |
| `Decoding.ReadStopsAt` | src/database/JsonDataReader.java:293-338 | when record k is the first to fail, exactly the first k decodings are kept, in order, and record k is reported |
| `Decoding.DanglingReviewEndsFile` | src/database/JsonDataReader.java:302-324 | a review with an unmatched reviewee or reviewer ends its file after the reviews before it |
| `Decoding.UnresolvedEmployerEndsFile` | src/database/JsonDataReader.java:353-363 | a posting whose employer is unmatched or not an employer ends its file after the postings before it |
| `Decoding.AdminsRead` | src/database/JsonDataReader.java:109-129 | every admin kept is an admin; a `null` file keeps none and is reported |
| `Decoding.StudentsRead` | src/database/JsonDataReader.java:135-223 | every student kept is a student; a `null` file keeps none and reports nothing |
| `Decoding.EmployersRead` | src/database/JsonDataReader.java:229-256 | every employer kept is an employer; a `null` file keeps none and reports nothing |
| `Decoding.ProfessorsRead` | src/database/JsonDataReader.java:262-287 | every professor kept is a professor; a `null` file keeps none and reports nothing |
| `Decoding.ReviewsRead` | src/database/JsonDataReader.java:293-338 | every review kept links two of the given users; a `null` file keeps none |
| `Decoding.PostingsRead` | src/database/JsonDataReader.java:344-427 | every posting kept has an employer among the given users; a `null` file keeps none |
| `Decoding.Load` | src/database/JsonDataReader.java:67-101 | the stored users are as many as the four user files keep; reviews and postings are read against all of them; every review links stored users |
| `Decoding.LoadUsers` | src/database/JsonDataReader.java:71-89 | the stored users are the four user files' users, appended in the order admins, students, employers, professors |
| `Decoding.ReadKinds` | src/database/JsonDataReader.java:71-89 | every user a reader keeps is of that reader's kind |
| `Decoding.UserBlocks` | src/database/JsonDataReader.java:71-89 | four appended user lists form four consecutive blocks, each exactly its list and of its kind |
| `Decoding.LoadOrder` | src/database/JsonDataReader.java:71-89 | stored users are the admins, then the students, employers and professors, each block exactly what its own file yields |
| `Decoding.ReviewLinksResolve` | src/database/JsonDataReader.java:302-324 | every loaded review's reviewer and reviewee are stored users |
| `Decoding.PostingLinksOf` | src/database/JsonDataReader.java:353-410 | a decoded posting's employer is a stored employer and its applicants are stored students |
| `Decoding.PostingLinksResolve` | src/database/JsonDataReader.java:353-410 | every loaded posting's employer is a stored employer and its applicants are stored students |
| `Decoding.LoadIntegrity` | src/database/JsonDataReader.java:67-101 | after the load, every review and posting link points at a stored user of the right kind |
| `Store.DataBlob.constructor` | src/database/JsonDataReader.java:69 | a new store is empty |
| `Store.DataBlob.AddUser` | src/database/JsonDataReader.java:73 | the user is appended; reviews and postings are unchanged |
| `Store.DataBlob.AddReview` | src/database/JsonDataReader.java:93 | the review is appended; users and postings are unchanged |
| `Store.DataBlob.AddJobPosting` | src/database/JsonDataReader.java:98 | the posting is appended; users and reviews are unchanged |
| `JsonDataReader.OpenRecords` | src/database/JsonDataReader.java:112-113 | the file is read only when it parses to an array, or to `null` behind the null check |
| `JsonDataReader.SettleRead` | src/database/JsonDataReader.java:111-128 | a loop that stops at the first failure yields what `ReadFile` describes |
| `JsonDataReader.CastTexts` | src/database/JsonDataReader.java:147-149 | the string-cast loop computes the array's strings, or the first failed cast |
| `JsonDataReader.DecodeEmploymentRecord` | src/database/JsonDataReader.java:157-173 | one employment, with its details loop, is decoded as `DecodeEmployment` says |
| `JsonDataReader.DecodeEmployments` | src/database/JsonDataReader.java:152-175 | the employments loop decodes every element, or stops at the first failure |
| `JsonDataReader.DecodeEducations` | src/database/JsonDataReader.java:177-190 | the educations loop decodes every element, or stops at the first failure |
| `JsonDataReader.FindUserIndex` | src/database/JsonDataReader.java:397-405 | the search loop with `break` finds the first user with the id |
| `JsonDataReader.JsonDataReader.constructor` | src/database/JsonDataReader.java:54-62 | the reader keeps its file set and has no store yet |
| `JsonDataReader.JsonDataReader.Read` | src/database/JsonDataReader.java:67-101 | a fresh store whose users, reviews and postings are exactly the whole load |
| `JsonDataReader.JsonDataReader.AddUsers` | src/database/JsonDataReader.java:72-89 | the list is appended to the stored users in order; nothing else changes |
| `JsonDataReader.JsonDataReader.AddReviews` | src/database/JsonDataReader.java:92-94 | the list is appended to the stored reviews in order |
| `JsonDataReader.JsonDataReader.AddJobPostings` | src/database/JsonDataReader.java:97-99 | the list is appended to the stored postings in order |
| `JsonDataReader.JsonDataReader.ReadAdministrators` | src/database/JsonDataReader.java:109-129 | the loop yields the admin file's decoded prefix and its first error, with a `null` file reported |
| `JsonDataReader.JsonDataReader.DecodeStudentRecord` | src/database/JsonDataReader.java:142-216 | one student record, with its inner loops, is decoded as `DecodeStudent` says |
| `JsonDataReader.JsonDataReader.ReadStudents` | src/database/JsonDataReader.java:135-223 | the loop yields the student file's decoded prefix and its first error |
| `JsonDataReader.JsonDataReader.ReadEmployers` | src/database/JsonDataReader.java:229-256 | the loop yields the employer file's decoded prefix and its first error |
| `JsonDataReader.JsonDataReader.ReadProfessors` | src/database/JsonDataReader.java:262-287 | the loop yields the professor file's decoded prefix and its first error |
| `JsonDataReader.JsonDataReader.SearchUser` | src/database/JsonDataReader.java:302-324 | the search parses the id on each iteration and returns the first stored user with it; with no users stored it fails as "not found" |
| `JsonDataReader.JsonDataReader.DecodeReviewRecord` | src/database/JsonDataReader.java:299-331 | one review, reviewee searched first, is decoded as `DecodeReview` says, including a `null` record with no users stored |
| `JsonDataReader.JsonDataReader.ReadReviews` | src/database/JsonDataReader.java:293-338 | the loop yields the review file's decoded prefix against the stored users |
| `JsonDataReader.JsonDataReader.SearchEmployer` | src/database/JsonDataReader.java:353-363 | the search returns the first user with the id when it is an employer, fails otherwise |
| `JsonDataReader.JsonDataReader.ParseApplicantIds` | src/database/JsonDataReader.java:387-394 | every applicant id is parsed, in order, before any is looked up |
| `JsonDataReader.JsonDataReader.SearchApplicants` | src/database/JsonDataReader.java:396-410 | each id is searched for in turn and its match cast to a student |
| `JsonDataReader.JsonDataReader.DecodePostingRecord` | src/database/JsonDataReader.java:350-420 | one posting is decoded as `DecodePosting` says, including a `null` record with no users stored |
| `JsonDataReader.JsonDataReader.ReadJobPostings` | src/database/JsonDataReader.java:344-427 | the loop yields the posting file's decoded prefix against the stored users |
| `StudentUI.Unapplied` | src/StudentUI.java:138-145 | the filter never lengthens the list (its membership and order are the lemmas below) |
| `StudentUI.UnappliedStep` | src/StudentUI.java:138-145 | the filter grows by a posting exactly when the student has not applied to it |
| `StudentUI.UnappliedConcat` | src/StudentUI.java:138-145 | filtering distributes over concatenation, so relative order is kept |
| `StudentUI.UnappliedMembers` | src/StudentUI.java:138-145 | a posting survives exactly when it is listed and not applied to; the result is no longer than the list |
| `StudentUI.RemoveDecided` | src/StudentUI.java:139-141 | `remove(i)` on an applied posting leaves the filtered prefix followed by the undecided rest |
| `StudentUI.KeepDecided` | src/StudentUI.java:143-145 | stepping past an unapplied posting adds it to the filtered prefix |
| `StudentUI.SkipApplied` | src/StudentUI.java:139-141 | the inner `remove(i)` loop removes applied postings at `i` until the one at `i`, if any, is not applied to, keeping the filtered prefix followed by the undecided rest |
| `StudentUI.DropApplied` | src/StudentUI.java:138-145 | the in-place removal loop leaves exactly the postings not applied to, in their original order |
| `StudentUI.TargetAsIntended` | src/StudentUI.java:148-158 | an option picks a posting exactly when it indexes the shown list; the posting is element `option` of that list, is listed and is not applied to |
| `StudentUI.AsWrittenReapplies` | src/StudentUI.java:138-158 | with the student applied to posting 0 and not to posting 1, only posting 1 is shown, and option 0 should reach it |
| `StudentUI.RemoveAt` | src/StudentUI.java:274-279 | a valid index deletes that element and shifts the later ones down; any other index changes nothing |
| `StudentUI.RemoveAtInverse` | src/StudentUI.java:274-279 | putting the removed element back restores the list; only that element is lost |
| `StudentUI.MatchMajor` | src/StudentUI.java:437-451 | a major is set only on a case-insensitive name match and is never NA; no match exactly when no name matches |
| `StudentUI.MatchMajorAgreesWithReader` | src/StudentUI.java:437-451 | with names that do not match each other, the menu accepts exactly the lines the reader decodes to a major, and picks the same major |
| `StudentUI.FirstMajorLine` | src/StudentUI.java:432-453 | the menu stops at the first line naming a major; none exactly when no line does |
| `StudentUI.FirstMajorLineAt` | src/StudentUI.java:432-453 | a line naming a major after lines that name none is the first accepted line |
| `StudentUI.FirstYesOrNo` | src/StudentUI.java:498-503 | the first answer that is "yes" or "no" ignoring case; none exactly when no later line is |
| `StudentUI.SignupOutcomeOf` | src/StudentUI.java:468-515 | an invalid email is rejected first, then an email in use, then a username in use; an account is made only when all three pass and an answer is given |
| `StudentUI.NewStudent` | src/StudentUI.java:505-513 | the new student carries the typed email, username, password and names, and its created flag is the given one; its id, approved flag, major, employments, educations, skills, rating and removed flag are the blank builder's |
| `StudentUI.StudentUI.LoggedInAs` | src/StudentUI.java:29-32 | the menus act for the given stored student |
| `StudentUI.StudentUI.SigningUp` | src/StudentUI.java:40-43 | no student yet |
| `StudentUI.StudentUI.ApplyToJob` | src/StudentUI.java:123-160 | the keyword chooses the query; an empty result changes nothing; the list shown is the unapplied postings; an option outside the re-fetched list changes nothing; otherwise the student is appended to the applicants of element `option` of the re-fetched list |
| `StudentUI.StudentUI.ApplyToJobAsIntended` | src/StudentUI.java:138-158 | as above, but the option indexes the shown list, so the student is added only to a posting it had not applied to |
| `StudentUI.StudentUI.RemoveEmployment` | src/StudentUI.java:267-280 | the stored student's employments lose the entry at the index, if valid; nothing else changes |
| `StudentUI.StudentUI.RemoveSkill` | src/StudentUI.java:340-353 | the stored student's skills lose the entry at the index, if valid; nothing else changes |
| `StudentUI.StudentUI.RemoveEducation` | src/StudentUI.java:400-413 | the stored student's educations lose the entry at the index, if valid; nothing else changes |
| `StudentUI.StudentUI.EditMajor` | src/StudentUI.java:432-454 | the major becomes the one named by the first accepted line; if no line is accepted, nothing changes |
| `StudentUI.StudentUI.FinishResumeEdit` | src/StudentUI.java:226 | leaving the resume editor sets the stored student's created flag to true and changes nothing else |
| `StudentUI.StudentUI.Signup` | src/StudentUI.java:468-516 | the outcome follows the check order; on success exactly one new student is appended and becomes the logged-in one; otherwise the store is unchanged |
| `StudentUI.ReapplyWitness` | src/StudentUI.java:123-160 | on a store with one student and two postings, the first already holding the student, the as-written method shows only posting 1, yet option 0 applies to posting 0, whose applicants become [student, student] |

## Left out

- File access and JSON parsing (`FileReader`, `JSONParser`): each file is given as already parsed, or as unreadable.
- `printStackTrace` and `Logger`: `Read` drops the errors the `readX` methods report.
- The spelling of the JSON keys: `JsonDataLabels.java` is not part of this model, so the keys are an enumeration of distinct labels.
- The display names of the majors: `Major.java` is not part of this model, so they are a parameter.
- `UUID.fromString` is a parameter that accepts or rejects a string. Ids are compared as values.
- Floating-point fields (GPA, hourly wage, average rating) are opaque bit patterns. No arithmetic is done on them.
- `String.toLowerCase` depends on the default locale. Under a Turkish locale `I` becomes a dotless `ı`, so `"PENDING"` would not lower-case to `"pending"` and would decode as NA. The model maps ASCII letters as an English locale does.
- `equalsIgnoreCase` does not depend on the locale, but it folds all of Unicode. The model folds ASCII letters only.
- `DataBlob.addUser`, `addReview` and `addJobPosting` are appends. `DataBlob.java` is not part of this model, and no uniqueness check is assumed.
- `JobPosting.addApplicant` appends the student. `JobPosting.java` is not part of this model.
- Assumed: `Student` does not override `equals`, so `getApplicants().contains(student)` is object identity, modelled as comparing stored positions.
- The builders are plain record construction. For sign-up, the student the builder makes with no fields set is the parameter `blank`.
- `Database` queries and `User.isEmailValid` are given as their results or as predicates. `Database.java` and `User.java` are not part of this model.
  - The queries are `getOpenPostings`, `getOpenPostingByRequirement`, `getUserByEmail` and `findByUsername`.
  - Assumed: the queries return fresh lists. `doApplyToJob` removes entries from the list it fetched; were that the store's own list, the removals would change the store.
  - Under that assumption, the re-fetch in `doApplyToJob` returns the same postings as the first fetch, because nothing changes the store in between.
- Terminal input is a sequence of lines. Numeric choices arrive as integers, because `Integer.parseInt` and its exceptions are not modelled.
- Input that ends early (`NoSuchElementException`) is modelled as an outcome that changes nothing.
- Menu loops, views and printing are not modelled: `doMainMenu`, the menus of `doEditResume`, `doEditEmployment`, `doEditSkills` and `doEditEducations`, `doViewJobListings`, `doViewReviews`, `doViewResume`, `doViewJobApplications` and `doPrintResume`. They are terminal I/O.
- `doAddEmployment`, `doAddSkill` and `doAddEducation` are not modelled: they only read input and append through accessors that are not shown. Of `doEditResume`, only the flag set at line 226 is kept.
- StudentUI.StudentUI.Signup: the resume-editing session that a "yes" answer starts is reduced to its final step, which sets the created flag. The edits made during that session are not modelled.
- StudentUI.StudentUI.Signup: the second email loop (lines 493-496) is not modelled as a loop. It can never run, because the email has already passed the same check.
- Decoding.DecodeStudent: the contract gives the skills but not the employments and educations; those are stated by `Decoding.StudentArrays`.
- Decoding.DecodePosting: the contract requires the applicants to resolve but does not list them; `Decoding.PostingArrays` states the list.
- Which error a failing record reports: the decoders state when a record decodes, not which of several bad fields is reported. The bodies follow the Java evaluation order, and the error only reaches `printStackTrace`.
- `MainUI.java` is not modelled: it is menu dispatch. `JobPostingDatabase.java` is not modelled: its `addPosting` has an empty body.

## Findings

| source | as written | input that shows it | evidently intended | confidence | as-written member | corrected member |
|---|---|---|---|---|---|---|
| src/StudentUI.java:138-158 | the postings shown are filtered to the ones not yet applied to, but the option is applied to the re-fetched, unfiltered list | the student has applied to posting 0 and not to posting 1; the list shown is [posting 1]; option 0 applies to posting 0 a second time | apply to element `option` of the list that was shown | not executed | `StudentUI.StudentUI.ApplyToJob`, `StudentUI.AsWrittenReapplies`, `StudentUI.ReapplyWitness` | `StudentUI.StudentUI.ApplyToJobAsIntended` |
