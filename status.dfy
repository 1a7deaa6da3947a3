/**
 * The six wish statuses of an application (ApplicantStatusTypes) and the
 * separate display precedence STATUS_ORDER used to summarise them.
 */
module StatusTypes {

  /** One status of a wish, in declaration order. */
  datatype Status = Incomplete | Pending | Rejected | Selected | Accepted | Confirmed

  /** The integer the enumeration stores for a status (0 to 5). */
  function Code(s: Status): (c: nat)
    ensures c <= 5
  {
    match s
    case Incomplete => 0
    case Pending => 1
    case Rejected => 2
    case Selected => 3
    case Accepted => 4
    case Confirmed => 5
  }

  /** Distinct statuses are stored as distinct integers. */
  lemma CodeInjective(s: Status, t: Status)
    ensures Code(s) == Code(t) <==> s == t
  {
  }

  /** Increasing precedence: when wishes disagree, the greatest is displayed. */
  const StatusOrder: seq<Status> := [Rejected, Incomplete, Pending, Selected, Accepted, Confirmed]

  /** The position of a status in StatusOrder. */
  function Rank(s: Status): (r: nat)
    ensures r < |StatusOrder| && StatusOrder[r] == s
  {
    match s
    case Rejected => 0
    case Incomplete => 1
    case Pending => 2
    case Selected => 3
    case Accepted => 4
    case Confirmed => 5
  }

  /** StatusOrder lists every status exactly once, so Rank is its inverse. */
  lemma StatusOrderIsPermutation(j: nat)
    requires j < |StatusOrder|
    ensures Rank(StatusOrder[j]) == j
  {
  }

  lemma RankInjective(s: Status, t: Status)
    ensures Rank(s) == Rank(t) <==> s == t
  {
  }

  /**
   * The precedence agrees with the declared integer values except that
   * `rejected` is moved below every other status.
   */
  lemma PrecedenceMovesOnlyRejected(s: Status, t: Status)
    ensures s != Rejected && t != Rejected ==> (Rank(s) < Rank(t) <==> Code(s) < Code(t))
    ensures s != Rejected ==> Rank(Rejected) < Rank(s)
  {
  }

  /** The name the enumeration displays for a status (get_status_display). */
  function Name(s: Status): (n: string)
    ensures |n| > 0
  {
    match s
    case Incomplete => "incomplete"
    case Pending => "pending"
    case Rejected => "rejected"
    case Selected => "selected"
    case Accepted => "accepted"
    case Confirmed => "confirmed"
  }

  /** Distinct statuses are displayed under distinct names. */
  lemma NameInjective(s: Status, t: Status)
    ensures Name(s) == Name(t) <==> s == t
  {
  }
}
