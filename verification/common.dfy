/** Vocabulary shared by every service of the reservation backend: optional
    values (Java's Optional and nullable references), the error a service
    throws, and the ascending enumeration of a table's ids that stands in for
    the order in which a repository query returns its rows. */
module Common {

  datatype Option<+T> = None | Some(value: T)

  /** The HTTP status a service attaches to the exception it throws. */
  datatype HttpStatus = NOT_FOUND | BAD_REQUEST | CONFLICT

  datatype Error =
      /** An exception raised by a service, with its user-facing message. */
    | Custom(message: string, status: HttpStatus)
      /** A row refused on save: bean validation or a unique column. */
    | ConstraintViolation(column: string)

  datatype Result<+T> = Ok(value: T) | Err(error: Error)

  /** The error every service raises when its optional user is empty. */
  const UserMissing := Custom("User does not exist.", NOT_FOUND)

  predicate StrictlyIncreasing(s: seq<nat>)
  {
    forall i, j | 0 <= i < j < |s| :: s[i] < s[j]
  }

  /** A set of naturals holding `y` has a least element: descend from `y`
      to any smaller member until none is left. */
  lemma {:induction false} MinExists(s: set<nat>, y: nat)
    requires y in s
    ensures exists m :: m in s && forall x | x in s :: m <= x
    decreases y
  {
    if exists z :: z in s && z < y {
      var z :| z in s && z < y;
      MinExists(s, z);
    }
  }

  /** The least element of a non-empty finite set of ids. */
  function Min(s: set<nat>): (m: nat)
    requires s != {}
    ensures m in s
    ensures forall x | x in s :: m <= x
  {
    var y :| y in s;
    MinExists(s, y);
    var m :| m in s && forall x | x in s :: m <= x;
    m
  }

  /** The elements of `s` listed once each, smallest first. */
  function Ascending(s: set<nat>): (r: seq<nat>)
    ensures |r| == |s|
    ensures forall x :: x in r <==> x in s
    ensures StrictlyIncreasing(r)
    decreases s
  {
    if s == {} then []
    else
      var m := Min(s);
      [m] + Ascending(s - {m})
  }
}
