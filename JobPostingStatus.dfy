/**
 * The closed set of job-posting statuses and their display strings.
 * Line numbers in this module refer to src/enums/JobPostingStatus.java.
 */
module JobPostingStatus {

  datatype Status = NA | Open | Pending | Closed

  /** The constants in declaration order. */
  const AllStatuses: seq<Status> := [NA, Open, Pending, Closed]

  /** The strings the constants are declared with, in declaration order. */
  const DeclaredNames: seq<string> := ["NA", "Open", "Pending", "Closed"]

  /** A constant's position in declaration order. */
  function Ordinal(s: Status): (i: nat)
    ensures i < |AllStatuses| && AllStatuses[i] == s
  {
    match s
    case NA => 0
    case Open => 1
    case Pending => 2
    case Closed => 3
  }

  /** `toString`: the string each constant was declared with. */
  function ToString(s: Status): (r: string)
    ensures r == DeclaredNames[Ordinal(s)]
    ensures |r| > 0
  {
    match s
    case NA => "NA"
    case Open => "Open"
    case Pending => "Pending"
    case Closed => "Closed"
  }

  /**
   * There are exactly four statuses, declared as NA, OPEN, PENDING, CLOSED, and
   * `toString` yields "NA", "Open", "Pending" and "Closed" for them.
   */
  lemma ExactlyFourStatuses(s: Status)
    ensures s in AllStatuses
    ensures |AllStatuses| == 4
    ensures forall i, j :: 0 <= i < j < |AllStatuses| ==> AllStatuses[i] != AllStatuses[j]
    ensures seq(4, i requires 0 <= i < 4 => ToString(AllStatuses[i])) == ["NA", "Open", "Pending", "Closed"]
  {
  }

  /** Distinct statuses are shown as distinct strings. */
  lemma ToStringInjective(s: Status, t: Status)
    ensures ToString(s) == ToString(t) ==> s == t
  {
    if s != t {
      match s
      case NA => assert ToString(s)[0] == 'N';
      case Open => assert ToString(s)[0] == 'O';
      case Pending => assert ToString(s)[0] == 'P';
      case Closed => assert ToString(s)[0] == 'C';
    }
  }
}
