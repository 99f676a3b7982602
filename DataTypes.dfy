/**
 * The entities the reader builds: users of four kinds, their resume parts,
 * reviews and job postings.
 *
 * A link to a user (a review's reviewer, a posting's employer or applicant)
 * is a `UserRef`: the position of that user in the store's user sequence.
 * The store is an arena, so a position names one Java object.
 * The fields are those src/database/JsonDataReader.java passes to the builders.
 */
module DataTypes {
  import opened Json
  import JobPostingStatus

  /** A `java.util.UUID`: its two 64-bit halves, as `UUID.equals` compares them. */
  datatype Uuid = Uuid(mostSigBits: bv64, leastSigBits: bv64)

  /** The string-to-UUID parser `UUID.fromString`; `None` where it throws. */
  type UuidParser = string -> Option<Uuid>

  /** A position in the store's user sequence. */
  type UserRef = nat

  datatype Major =
    | NA
    | ComputerScience
    | ComputerEngineering
    | ComputerInformationSystems
    | IntegratedInformationTechnology

  /**
   * The strings `Major.X.toString()` returns for the four named majors.
   * `Major.java` is not part of this model, so they are a parameter.
   */
  datatype MajorNames = MajorNames(cs: string, ce: string, cis: string, iit: string) {
    function Name(m: Major): string
      requires m != NA
    {
      match m
      case ComputerScience => cs
      case ComputerEngineering => ce
      case ComputerInformationSystems => cis
      case IntegratedInformationTechnology => iit
    }
  }

  /** The fields every user kind is built with. */
  datatype Account = Account(
    id: Uuid,
    username: Text,
    password: Text,
    email: Text,
    firstName: Text,
    lastName: Text,
    approved: bool)

  datatype Education = Education(place: Text, gpa: Double, gradDate: Text)

  datatype Employment = Employment(company: Text, title: Text, dates: Text, details: seq<Text>)

  /**
   * The user kinds. An admin is built without a removed flag; the other three
   * carry the one read from their record.
   */
  datatype User =
    | Admin(account: Account)
    | Student(
        account: Account,
        major: Major,
        createdResume: bool,
        employments: seq<Employment>,
        educations: seq<Education>,
        technicalSkills: seq<Text>,
        averageRating: Double,
        removed: bool)
    | Employer(account: Account, company: Text, averageRating: Double, removed: bool)
    | Professor(account: Account, removed: bool)
  {
    function Id(): Uuid { account.id }
  }

  datatype Review = Review(
    id: Uuid,
    reviewer: UserRef,
    reviewee: UserRef,
    rating: int,
    comment: Text,
    removed: bool)

  datatype JobPosting = JobPosting(
    id: Uuid,
    employer: UserRef,
    jobTitle: Text,
    description: Text,
    requirements: seq<Text>,
    hourlyWage: Double,
    status: JobPostingStatus.Status,
    applicants: seq<UserRef>,
    removed: bool)
}
