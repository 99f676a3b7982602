/**
 * The state-changing logic of the student menus, with the terminal taken out:
 * each line the user would type is an element of an input sequence (or an
 * already-parsed number), and the `Database` queries the menus call are given
 * as their results.
 *
 * The logged-in student is a position in the store's user sequence, so changing
 * the student changes the stored user, as the shared Java object does.
 * Line numbers in this module refer to src/StudentUI.java.
 */
module StudentUI {
  import opened Json
  import opened DataTypes
  import opened JavaText
  import opened Decoding
  import opened Store

  // ---------------------------------------------------------------------
  // Applying to a job
  // ---------------------------------------------------------------------

  /** Every element of `list` is the position of a stored posting. */
  predicate InStore(postings: seq<JobPosting>, list: seq<nat>)
  {
    forall k :: 0 <= k < |list| ==> list[k] < |postings|
  }

  /** `postings.get(p).getApplicants().contains(student)`. */
  predicate HasApplied(postings: seq<JobPosting>, student: UserRef, p: nat)
  {
    p < |postings| && student in postings[p].applicants
  }

  /** The postings of `list` the student has not applied to, in their order in `list`. */
  function Unapplied(postings: seq<JobPosting>, student: UserRef, list: seq<nat>): (r: seq<nat>)
    ensures |r| <= |list|
    decreases |list|
  {
    if list == [] then []
    else
      var last := |list| - 1;
      Unapplied(postings, student, list[..last])
        + (if HasApplied(postings, student, list[last]) then [] else [list[last]])
  }

  /** Extending the list by one posting extends the unapplied ones by that posting, unless applied to. */
  lemma UnappliedStep(postings: seq<JobPosting>, student: UserRef, list: seq<nat>, m: nat)
    requires m < |list|
    ensures Unapplied(postings, student, list[..m + 1])
         == Unapplied(postings, student, list[..m])
            + (if HasApplied(postings, student, list[m]) then [] else [list[m]])
  {
    assert list[..m + 1][..m] == list[..m];
  }

  /** Filtering distributes over concatenation: relative order is kept. */
  lemma {:induction false} UnappliedConcat(postings: seq<JobPosting>, student: UserRef, a: seq<nat>, b: seq<nat>)
    ensures Unapplied(postings, student, a + b) == Unapplied(postings, student, a) + Unapplied(postings, student, b)
    decreases |b|
  {
    if b == [] {
      assert a + b == a;
    } else {
      var last := |b| - 1;
      assert (a + b)[..|a + b| - 1] == a + b[..last];
      UnappliedConcat(postings, student, a, b[..last]);
    }
  }

  /** A posting survives the filter exactly when it is listed and not applied to. */
  lemma {:induction false} UnappliedMembers(postings: seq<JobPosting>, student: UserRef, list: seq<nat>)
    ensures forall p :: p in Unapplied(postings, student, list) <==> p in list && !HasApplied(postings, student, p)
    ensures |Unapplied(postings, student, list)| <= |list|
    decreases |list|
  {
    if list != [] {
      var last := |list| - 1;
      UnappliedMembers(postings, student, list[..last]);
      assert list == list[..last] + [list[last]];
    }
  }

  /**
   * The posting a selection should reach: element `option` of the list that was
   * shown. It is always a listed posting the student has not applied to.
   */
  function TargetAsIntended(postings: seq<JobPosting>, student: UserRef, fetched: seq<nat>, option: int): (r: Option<nat>)
    ensures r.Some? <==> 0 <= option < |Unapplied(postings, student, fetched)|
    ensures r.Some? ==> r.value == Unapplied(postings, student, fetched)[option]
    ensures r.Some? ==> r.value in fetched && !HasApplied(postings, student, r.value)
  {
    var shown := Unapplied(postings, student, fetched);
    if 0 <= option < |shown| then
      UnappliedMembers(postings, student, fetched);
      assert shown[option] in shown;
      Some(shown[option])
    else None
  }

  /**
   * Lines 138-158 as written: the list shown is filtered, but the option indexes the
   * re-fetched, unfiltered list. With the student already applied to posting 0 and
   * not to posting 1, only posting 1 is shown and option 0 should reach it;
   * `ReapplyWitness` runs the as-written method on such a store.
   */
  lemma AsWrittenReapplies(postings: seq<JobPosting>, student: UserRef)
    requires |postings| == 2 && postings[0].applicants == [student] && postings[1].applicants == []
    ensures Unapplied(postings, student, [0, 1]) == [1]
    ensures TargetAsIntended(postings, student, [0, 1], 0) == Some(1)
  {
    assert [0, 1][..1] == [0];
    assert [0, 1][..1][..0] == [];
  }

  /** Removing the first undecided posting, one the student applied to, decides it. */
  lemma RemoveDecided(postings: seq<JobPosting>, student: UserRef, list: seq<nat>, m: nat, jobPostings: seq<nat>)
    requires m <= |list| && jobPostings == Unapplied(postings, student, list[..m]) + list[m..]
    requires |Unapplied(postings, student, list[..m])| < |jobPostings|
    requires HasApplied(postings, student, jobPostings[|Unapplied(postings, student, list[..m])|])
    ensures var i := |Unapplied(postings, student, list[..m])|;
      && m < |list|
      && jobPostings[..i] + jobPostings[i + 1..] == Unapplied(postings, student, list[..m + 1]) + list[m + 1..]
      && |Unapplied(postings, student, list[..m + 1])| == i
  {
    var i := |Unapplied(postings, student, list[..m])|;
    assert jobPostings[i] == list[m];
    UnappliedStep(postings, student, list, m);
    assert jobPostings[..i] == Unapplied(postings, student, list[..m]);
    assert jobPostings[i + 1..] == list[m + 1..];
  }

  /** Stepping past the first undecided posting, one the student did not apply to, decides it. */
  lemma KeepDecided(postings: seq<JobPosting>, student: UserRef, list: seq<nat>, m: nat, jobPostings: seq<nat>)
    requires m <= |list| && jobPostings == Unapplied(postings, student, list[..m]) + list[m..]
    requires |Unapplied(postings, student, list[..m])| < |jobPostings|
    requires !HasApplied(postings, student, jobPostings[|Unapplied(postings, student, list[..m])|])
    ensures m < |list|
    ensures jobPostings == Unapplied(postings, student, list[..m + 1]) + list[m + 1..]
    ensures |Unapplied(postings, student, list[..m + 1])| == |Unapplied(postings, student, list[..m])| + 1
  {
    var i := |Unapplied(postings, student, list[..m])|;
    assert jobPostings[i] == list[m];
    UnappliedStep(postings, student, list, m);
    assert list[m..] == [list[m]] + list[m + 1..];
  }

  /** What one visit to the apply menu ends with. */
  datatype ApplyOutcome =
    | NoPostings           // "No job postings found"
    | InvalidOption        // "Invalid option"
    | AppliedTo(posting: nat)

  /**
   * Lines 139-141, the inner loop: `remove(i)` while the posting at `i` is one the student
   * applied to. `m` counts the fetched postings already decided; each removal decides one.
   */
  method SkipApplied(postings: seq<JobPosting>, student: UserRef, list: seq<nat>,
                     jobPostings: seq<nat>, i: nat, ghost m: nat)
    returns (rest: seq<nat>, ghost decided: nat)
    requires InStore(postings, list)
    requires m <= |list| && jobPostings == Unapplied(postings, student, list[..m]) + list[m..]
    requires i == |Unapplied(postings, student, list[..m])|
    ensures m <= decided <= |list| && rest == Unapplied(postings, student, list[..decided]) + list[decided..]
    ensures i == |Unapplied(postings, student, list[..decided])|
    ensures i < |rest| ==> !HasApplied(postings, student, rest[i])
  {
    rest, decided := jobPostings, m;
    while i < |rest| && student in postings[rest[i]].applicants
      invariant m <= decided <= |list|
      invariant rest == Unapplied(postings, student, list[..decided]) + list[decided..]
      invariant i == |Unapplied(postings, student, list[..decided])|
      decreases |rest| - i
    {
      RemoveDecided(postings, student, list, decided, rest);
      rest := rest[..i] + rest[i + 1..];
      decided := decided + 1;
    }
  }

  /**
   * Lines 138-145: the in-place loop that drops the postings the student has applied
   * to, one `remove(i)` at a time, without advancing past a removed slot.
   */
  method DropApplied(postings: seq<JobPosting>, student: UserRef, list: seq<nat>) returns (kept: seq<nat>)
    requires InStore(postings, list)
    ensures kept == Unapplied(postings, student, list)
  {
    var jobPostings := list;
    ghost var m := 0;  // how many of the original postings have been decided
    var i := 0;
    while i <= |jobPostings|
      invariant m <= |list| && i <= |jobPostings| + 1
      invariant jobPostings == Unapplied(postings, student, list[..m]) + list[m..]
      invariant i <= |jobPostings| ==> i == |Unapplied(postings, student, list[..m])|
      invariant i == |jobPostings| + 1 ==> m == |list|
      decreases |jobPostings| + 1 - i
    {
      jobPostings, m := SkipApplied(postings, student, list, jobPostings, i, m);
      if i < |jobPostings| {
        KeepDecided(postings, student, list, m, jobPostings);
        m := m + 1;
      }
      i := i + 1;
    }
    assert list[..m] == list;
    kept := jobPostings;
  }

  // ---------------------------------------------------------------------
  // Removing a resume entry by index
  // ---------------------------------------------------------------------

  /**
   * `ArrayList.remove(int)` under the menus' `catch (IndexOutOfBoundsException)`:
   * a valid index deletes that element and shifts the later ones down; any other
   * index leaves the list as it was.
   */
  function RemoveAt<T>(s: seq<T>, i: int): (r: seq<T>)
    ensures 0 <= i < |s| ==>
      && |r| == |s| - 1
      && (forall k :: 0 <= k < i ==> r[k] == s[k])
      && (forall k :: i <= k < |r| ==> r[k] == s[k + 1])
    ensures !(0 <= i < |s|) ==> r == s
  {
    if 0 <= i < |s| then s[..i] + s[i + 1..] else s
  }

  /** Putting the removed element back at its index restores the list; nothing else is lost. */
  lemma RemoveAtInverse<T>(s: seq<T>, i: int)
    requires 0 <= i < |s|
    ensures RemoveAt(s, i)[..i] + [s[i]] + RemoveAt(s, i)[i..] == s
    ensures multiset(RemoveAt(s, i)) + multiset{s[i]} == multiset(s)
  {
    var r := RemoveAt(s, i);
    assert r[..i] == s[..i];
    assert r[i..] == s[i + 1..];
    assert s == s[..i] + [s[i]] + s[i + 1..];
  }

  // ---------------------------------------------------------------------
  // Editing the major
  // ---------------------------------------------------------------------

  /**
   * Lines 437-451: the first of computer engineering, computer science, integrated
   * information technology and computer information systems whose name matches
   * ignoring case; none for any other line. `NA` is never chosen.
   */
  function MatchMajor(names: MajorNames, s: string): (r: Option<Major>)
    ensures r.Some? ==> r.value != NA && EqualsIgnoreCase(s, names.Name(r.value))
    ensures r.None? <==> forall m: Major :: m != NA ==> !EqualsIgnoreCase(s, names.Name(m))
  {
    if EqualsIgnoreCase(s, names.ce) then Some(ComputerEngineering)
    else if EqualsIgnoreCase(s, names.cs) then Some(ComputerScience)
    else if EqualsIgnoreCase(s, names.iit) then Some(IntegratedInformationTechnology)
    else if EqualsIgnoreCase(s, names.cis) then Some(ComputerInformationSystems)
    else None
  }

  /**
   * When no two major names match each other, the menu and the file reader agree:
   * the menu accepts a line exactly when the reader decodes it to a major other than
   * `NA`, and both pick the same major, although they try the names in different orders.
   */
  lemma MatchMajorAgreesWithReader(names: MajorNames, s: string)
    requires DistinctNames(names)
    ensures MatchMajor(names, s).None? <==> MajorFromText(names, s) == NA
    ensures MatchMajor(names, s).Some? ==> MatchMajor(names, s).value == MajorFromText(names, s)
  {
    var r := MatchMajor(names, s);
    if r.Some? {
      MajorRoundTrip(names, r.value, s);
    }
  }

  /** The position of the first accepted line: the menu prompts again after every other line. */
  function FirstMajorLine(names: MajorNames, lines: seq<string>): (r: Option<nat>)
    ensures r.Some? ==>
      && r.value < |lines| && MatchMajor(names, lines[r.value]).Some?
      && forall j :: 0 <= j < r.value ==> MatchMajor(names, lines[j]).None?
    ensures r.None? <==> forall j :: 0 <= j < |lines| ==> MatchMajor(names, lines[j]).None?
    decreases |lines|
  {
    if lines == [] then None
    else if MatchMajor(names, lines[0]).Some? then Some(0)
    else match FirstMajorLine(names, lines[1..])
      case None => None
      case Some(k) =>
        assert forall j :: 1 <= j <= k + 1 ==> lines[j] == lines[1..][j - 1];
        Some(k + 1)
  }

  /** The line at `i` is the first accepted one once every earlier line was refused. */
  lemma FirstMajorLineAt(names: MajorNames, lines: seq<string>, i: nat)
    requires i < |lines| && MatchMajor(names, lines[i]).Some?
    requires forall j :: 0 <= j < i ==> MatchMajor(names, lines[j]).None?
    ensures FirstMajorLine(names, lines) == Some(i)
  {
  }

  // ---------------------------------------------------------------------
  // Signing up
  // ---------------------------------------------------------------------

  /** How a sign-up ends. */
  datatype SignupOutcome =
    | InvalidEmail            // "Invalid email"
    | EmailInUse              // "Email already in use"
    | UsernameInUse           // "Username already exists"
    | InputEnded              // the input ran out before the questions were answered
    | SignedUp(wantsResume: bool)

  /** Lines 500-503: the first answer, at or after `from`, that is "yes" or "no" ignoring case. */
  function FirstYesOrNo(lines: seq<string>, from: nat): (r: Option<nat>)
    ensures r.Some? ==>
      && from <= r.value < |lines|
      && (EqualsIgnoreCase(lines[r.value], "yes") || EqualsIgnoreCase(lines[r.value], "no"))
      && forall j :: from <= j < r.value ==> !EqualsIgnoreCase(lines[j], "yes") && !EqualsIgnoreCase(lines[j], "no")
    ensures r.None? <==> forall j :: from <= j < |lines| ==> !EqualsIgnoreCase(lines[j], "yes") && !EqualsIgnoreCase(lines[j], "no")
    decreases |lines| - from
  {
    if from >= |lines| then None
    else if EqualsIgnoreCase(lines[from], "yes") || EqualsIgnoreCase(lines[from], "no") then Some(from)
    else FirstYesOrNo(lines, from + 1)
  }

  /** The lines sign-up reads, in order. */
  const EmailLine := 0
  const UsernameLine := 1
  const PasswordLine := 2
  const FirstNameLine := 3
  const LastNameLine := 4
  const FirstAnswerLine := 5

  /**
   * Lines 468-515: the email is checked for validity, then for being in use, and only
   * then is the username read and checked; an account is made only when all three
   * pass and a yes/no answer is given.
   */
  function SignupOutcomeOf(lines: seq<string>, emailValid: string -> bool,
                           emailInUse: string -> bool, usernameInUse: string -> bool): (r: SignupOutcome)
    ensures r == InvalidEmail <==> |lines| > EmailLine && !emailValid(lines[EmailLine])
    ensures r == EmailInUse <==> |lines| > EmailLine && emailValid(lines[EmailLine]) && emailInUse(lines[EmailLine])
    ensures r == UsernameInUse <==>
      |lines| > UsernameLine && emailValid(lines[EmailLine]) && !emailInUse(lines[EmailLine])
      && usernameInUse(lines[UsernameLine])
    ensures r.SignedUp? <==>
      && |lines| > UsernameLine && emailValid(lines[EmailLine]) && !emailInUse(lines[EmailLine])
      && !usernameInUse(lines[UsernameLine])
      && FirstYesOrNo(lines, FirstAnswerLine).Some?
    ensures r.SignedUp? ==> r.wantsResume == EqualsIgnoreCase(lines[FirstYesOrNo(lines, FirstAnswerLine).value], "yes")
  {
    if |lines| <= EmailLine then InputEnded
    else if !emailValid(lines[EmailLine]) then InvalidEmail
    else if emailInUse(lines[EmailLine]) then EmailInUse
    else if |lines| <= UsernameLine then InputEnded
    else if usernameInUse(lines[UsernameLine]) then UsernameInUse
    else match FirstYesOrNo(lines, FirstAnswerLine)
      case None => InputEnded
      case Some(k) => SignedUp(EqualsIgnoreCase(lines[k], "yes"))
  }

  /**
   * Lines 505-513: the builder's student with the typed fields set; its created flag
   * is true exactly when the resume editor was entered (its last step sets it).
   */
  function NewStudent(blank: User, lines: seq<string>, created: bool): (u: User)
    requires blank.Student? && |lines| > LastNameLine
    ensures u.Student? && u.createdResume == created
    ensures u.account.email == Some(lines[EmailLine]) && u.account.username == Some(lines[UsernameLine])
    ensures u.account.password == Some(lines[PasswordLine])
    ensures u.account.firstName == Some(lines[FirstNameLine]) && u.account.lastName == Some(lines[LastNameLine])
    ensures u.account.id == blank.account.id && u.major == blank.major && u.employments == blank.employments
    ensures u.account.approved == blank.account.approved && u.educations == blank.educations
    ensures u.technicalSkills == blank.technicalSkills && u.averageRating == blank.averageRating
    ensures u.removed == blank.removed
  {
    blank.(account := blank.account.(
             username := Some(lines[UsernameLine]),
             password := Some(lines[PasswordLine]),
             firstName := Some(lines[FirstNameLine]),
             lastName := Some(lines[LastNameLine]),
             email := Some(lines[EmailLine])),
           createdResume := created)
  }

  // ---------------------------------------------------------------------
  // The menu object
  // ---------------------------------------------------------------------

  class StudentUI {
    /** The `Database` singleton's store. */
    const db: DataBlob
    /** The display names of the majors. */
    const names: MajorNames
    /** The logged-in student, or none while signing up. */
    var student: Option<UserRef>

    /** A logged-in student is a stored student. */
    predicate Valid()
      reads this, db
    {
      student.Some? ==> student.value < |db.users| && db.users[student.value].Student?
    }

    predicate LoggedIn()
      reads this, db
    {
      student.Some? && Valid()
    }

    /** `new StudentUI(scanner, student)`. */
    constructor LoggedInAs(db: DataBlob, names: MajorNames, s: UserRef)
      requires s < |db.users| && db.users[s].Student?
      ensures this.db == db && this.names == names && student == Some(s)
      ensures LoggedIn()
    {
      this.db := db;
      this.names := names;
      student := Some(s);
    }

    /** `new StudentUI(scanner)`, used for signing up. */
    constructor SigningUp(db: DataBlob, names: MajorNames)
      ensures this.db == db && this.names == names && student == None
      ensures Valid()
    {
      this.db := db;
      this.names := names;
      student := None;
    }

    /**
     * Lines 123-160 as written. The keyword chooses the query; an empty result ends the
     * visit; the postings already applied to are dropped before display; then the
     * option indexes the list fetched again, unfiltered.
     */
    method ApplyToJob(keyword: string, byRequirement: seq<nat>, openPostings: seq<nat>, option: int)
      returns (shown: seq<nat>, outcome: ApplyOutcome)
      requires LoggedIn()
      requires InStore(db.postings, byRequirement) && InStore(db.postings, openPostings)
      modifies db
      ensures var fetched := if keyword != "" then byRequirement else openPostings;
        && (fetched == [] ==> outcome == NoPostings && shown == [])
        && (fetched != [] ==> shown == Unapplied(old(db.postings), student.value, fetched))
        && (outcome.AppliedTo? <==> fetched != [] && 0 <= option < |fetched|)
        && (outcome.AppliedTo? ==> outcome.posting == fetched[option])
        && db.postings == (if outcome.AppliedTo?
                           then old(db.postings)[outcome.posting := old(db.postings)[outcome.posting].(
                                  applicants := old(db.postings)[outcome.posting].applicants + [student.value])]
                           else old(db.postings))
      ensures db.users == old(db.users) && db.reviews == old(db.reviews)
    {
      var s := student.value;
      var jobPostings := if keyword != "" then byRequirement else openPostings;
      if |jobPostings| == 0 {
        return [], NoPostings;
      }
      shown := DropApplied(db.postings, s, jobPostings);
      // the list is fetched again before the option is used
      jobPostings := if keyword != "" then byRequirement else openPostings;
      if option < 0 || option >= |jobPostings| {
        return shown, InvalidOption;
      }
      var p := jobPostings[option];
      db.postings := db.postings[p := db.postings[p].(applicants := db.postings[p].applicants + [s])];
      outcome := AppliedTo(p);
    }

    /**
     * The same visit with the option applied to the list that was shown: the student
     * is added to a posting they had not applied to, so no application is repeated.
     */
    method ApplyToJobAsIntended(keyword: string, byRequirement: seq<nat>, openPostings: seq<nat>, option: int)
      returns (shown: seq<nat>, outcome: ApplyOutcome)
      requires LoggedIn()
      requires InStore(db.postings, byRequirement) && InStore(db.postings, openPostings)
      modifies db
      ensures var fetched := if keyword != "" then byRequirement else openPostings;
        && (fetched == [] ==> outcome == NoPostings && shown == [])
        && (fetched != [] ==> shown == Unapplied(old(db.postings), student.value, fetched))
        && (fetched != [] ==> (outcome.AppliedTo? <==> TargetAsIntended(old(db.postings), student.value, fetched, option).Some?))
        && (outcome.AppliedTo? ==>
              && Some(outcome.posting) == TargetAsIntended(old(db.postings), student.value, fetched, option)
              && student.value !in old(db.postings)[outcome.posting].applicants)
        && db.postings == (if outcome.AppliedTo?
                           then old(db.postings)[outcome.posting := old(db.postings)[outcome.posting].(
                                  applicants := old(db.postings)[outcome.posting].applicants + [student.value])]
                           else old(db.postings))
      ensures db.users == old(db.users) && db.reviews == old(db.reviews)
    {
      var s := student.value;
      var jobPostings := if keyword != "" then byRequirement else openPostings;
      if |jobPostings| == 0 {
        return [], NoPostings;
      }
      shown := DropApplied(db.postings, s, jobPostings);
      ghost var target := TargetAsIntended(db.postings, s, jobPostings, option);
      if option < 0 || option >= |shown| {
        return shown, InvalidOption;
      }
      var p := shown[option];
      assert target == Some(p);
      db.postings := db.postings[p := db.postings[p].(applicants := db.postings[p].applicants + [s])];
      outcome := AppliedTo(p);
    }

    /** Lines 267-280: remove the employment at `option`, if there is one. */
    method RemoveEmployment(option: int)
      requires LoggedIn()
      modifies db
      ensures LoggedIn()
      ensures var k := student.value;
        db.users == old(db.users)[k := old(db.users)[k].(employments := RemoveAt(old(db.users)[k].employments, option))]
      ensures db.reviews == old(db.reviews) && db.postings == old(db.postings)
    {
      var k := student.value;
      var employments := db.users[k].employments;
      db.users := db.users[k := db.users[k].(employments := RemoveAt(employments, option))];
    }

    /** Lines 340-353: remove the skill at `option`, if there is one. */
    method RemoveSkill(option: int)
      requires LoggedIn()
      modifies db
      ensures LoggedIn()
      ensures var k := student.value;
        db.users == old(db.users)[k := old(db.users)[k].(technicalSkills := RemoveAt(old(db.users)[k].technicalSkills, option))]
      ensures db.reviews == old(db.reviews) && db.postings == old(db.postings)
    {
      var k := student.value;
      var skills := db.users[k].technicalSkills;
      db.users := db.users[k := db.users[k].(technicalSkills := RemoveAt(skills, option))];
    }

    /** Lines 400-413: remove the education at `option`, if there is one. */
    method RemoveEducation(option: int)
      requires LoggedIn()
      modifies db
      ensures LoggedIn()
      ensures var k := student.value;
        db.users == old(db.users)[k := old(db.users)[k].(educations := RemoveAt(old(db.users)[k].educations, option))]
      ensures db.reviews == old(db.reviews) && db.postings == old(db.postings)
    {
      var k := student.value;
      var educations := db.users[k].educations;
      db.users := db.users[k := db.users[k].(educations := RemoveAt(educations, option))];
    }

    /**
     * Lines 432-454: read lines until one names a major, and set it. Returns the
     * position of that line; when the input runs out first, nothing is set.
     */
    method EditMajor(lines: seq<string>) returns (accepted: Option<nat>)
      requires LoggedIn()
      modifies db
      ensures LoggedIn()
      ensures accepted == FirstMajorLine(names, lines)
      ensures var k := student.value;
        db.users == if accepted.Some?
                    then old(db.users)[k := old(db.users)[k].(major := MatchMajor(names, lines[accepted.value]).value)]
                    else old(db.users)
      ensures db.reviews == old(db.reviews) && db.postings == old(db.postings)
    {
      var k := student.value;
      var i := 0;
      while i < |lines|
        invariant 0 <= i <= |lines|
        invariant forall j :: 0 <= j < i ==> MatchMajor(names, lines[j]).None?
        invariant db.users == old(db.users) && db.reviews == old(db.reviews) && db.postings == old(db.postings)
      {
        var major := MatchMajor(names, lines[i]);
        if major.Some? {
          FirstMajorLineAt(names, lines, i);
          var updated := db.users[k := db.users[k].(major := major.value)];
          assert updated == old(db.users)[k := old(db.users)[k].(major := MatchMajor(names, lines[i]).value)];
          db.users := updated;
          return Some(i);
        }
        i := i + 1;
      }
      assert FirstMajorLine(names, lines).None?;
      return None;
    }

    /** Line 226: leaving the resume editor marks the resume as created. */
    method FinishResumeEdit()
      requires LoggedIn()
      modifies db
      ensures LoggedIn()
      ensures var k := student.value;
        db.users == old(db.users)[k := old(db.users)[k].(createdResume := true)]
      ensures db.reviews == old(db.reviews) && db.postings == old(db.postings)
    {
      var k := student.value;
      db.users := db.users[k := db.users[k].(createdResume := true)];
    }

    /**
     * Lines 468-516. `User.isEmailValid`, `getUserByEmail(..) != null` and
     * `findByUsername(..) != null` are the three predicates; `blank` is the student
     * `Student.Builder` makes before any field is set. On success the new student is
     * stored last and becomes the logged-in one.
     */
    method Signup(lines: seq<string>, emailValid: string -> bool, emailInUse: string -> bool,
                  usernameInUse: string -> bool, blank: User)
      returns (outcome: SignupOutcome)
      requires Valid() && blank.Student?
      modifies this, db
      ensures Valid()
      ensures outcome == SignupOutcomeOf(lines, emailValid, emailInUse, usernameInUse)
      ensures outcome.SignedUp? ==>
        && |lines| > LastNameLine
        && db.users == old(db.users) + [NewStudent(blank, lines, outcome.wantsResume)]
        && student == Some(|old(db.users)|)
      ensures !outcome.SignedUp? ==> db.users == old(db.users) && student == old(student)
      ensures db.reviews == old(db.reviews) && db.postings == old(db.postings)
    {
      if |lines| <= EmailLine { return InputEnded; }
      var email := lines[EmailLine];
      if !emailValid(email) { return InvalidEmail; }
      if emailInUse(email) { return EmailInUse; }
      if |lines| <= UsernameLine { return InputEnded; }
      var username := lines[UsernameLine];
      if usernameInUse(username) { return UsernameInUse; }
      if |lines| <= LastNameLine {
        assert FirstYesOrNo(lines, FirstAnswerLine).None?;
        return InputEnded;
      }
      // The second email check of lines 493-496 cannot repeat: the email is already valid.
      var answer := FirstAnswerLine;
      while answer < |lines| && !EqualsIgnoreCase(lines[answer], "yes") && !EqualsIgnoreCase(lines[answer], "no")
        invariant FirstAnswerLine <= answer <= |lines|
        invariant FirstYesOrNo(lines, answer) == FirstYesOrNo(lines, FirstAnswerLine)
        decreases |lines| - answer
      {
        answer := answer + 1;
      }
      if answer == |lines| {
        return InputEnded;
      }
      var wantsResume := EqualsIgnoreCase(lines[answer], "yes");
      var created := NewStudent(blank, lines, false);
      if wantsResume {
        // the editing session itself is not modelled; its last step sets the flag
        created := created.(createdResume := true);
      }
      student := Some(|db.users|);
      db.AddUser(created);
      outcome := SignedUp(wantsResume);
    }
  }

  /** A store holding one user and two copies of `p`, the first with that user as its only applicant. */
  method TwoPostingStore(s: User, p: JobPosting) returns (db: DataBlob)
    ensures fresh(db)
    ensures db.users == [s] && db.postings == [p.(applicants := [0]), p.(applicants := [])]
  {
    db := new DataBlob();
    db.AddUser(s);
    db.AddJobPosting(p.(applicants := [0]));
    db.AddJobPosting(p.(applicants := []));
  }

  /**
   * Lines 138-158 as written, on a concrete store: one student and two postings,
   * the first already holding the student. Only posting 1 is shown, yet option 0
   * adds the student to posting 0 a second time.
   */
  method ReapplyWitness(names: MajorNames, s: User, p: JobPosting)
    returns (shown: seq<nat>, outcome: ApplyOutcome, applicants: seq<UserRef>)
    requires s.Student?
    ensures shown == [1] && outcome == AppliedTo(0) && applicants == [0, 0]
  {
    var db := TwoPostingStore(s, p);
    ghost var before := db.postings;
    var ui := new StudentUI.LoggedInAs(db, names, 0);
    shown, outcome := ui.ApplyToJob("", [], [0, 1], 0);
    assert shown == Unapplied(before, 0, [0, 1]) && outcome == AppliedTo(0);
    AsWrittenReapplies(before, 0);
    applicants := db.postings[0].applicants;
  }
}
