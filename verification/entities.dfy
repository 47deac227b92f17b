/** The persisted entities (User, Course, Meeting, TeachingRequest and the
    session Token rows) and the whole database as one immutable record.
    Ids are table keys; each table that the core inserts into carries the
    next value of its id sequence. Times are whole minutes. */
module Entities {
  import opened Common
  import opened CharClasses

  type UserId = nat
  type CourseId = nat
  type MeetingId = nat
  type RequestId = nat
  type TokenId = nat

  /** The closed, non-null role of a user. */
  datatype Role = STUDENT | TEACHER | ADMIN

  datatype RequestStatus = PENDING | APPROVED | REJECTED

  datatype User = User(
    id: UserId,
    degree: Option<string>,
    firstName: string,
    lastName: string,
    email: string,
    phoneNumber: Option<string>,
    /** The encoded password, as stored. */
    password: string,
    role: Role,
    description: Option<string>)

  /** A course; `teacher` is nullable, `students` is the join table's list. */
  datatype Course = Course(name: string, room: string, teacher: Option<UserId>, students: seq<UserId>)

  /** A bookable slot of `duration` minutes from `beginning`; `student` is
      None while the slot is unclaimed. */
  datatype Meeting = Meeting(beginning: int, duration: int, course: CourseId, teacher: UserId, student: Option<UserId>)

  datatype TeachingRequest = TeachingRequest(teacher: UserId, dateTime: int, status: RequestStatus)

  /** A session token row; revoking a user's tokens sets both flags. */
  datatype Token = Token(user: UserId, expired: bool, revoked: bool)

  datatype Store = Store(
    users: map<UserId, User>,
    courses: map<CourseId, Course>,
    meetings: map<MeetingId, Meeting>,
    requests: map<RequestId, TeachingRequest>,
    tokens: map<TokenId, Token>,
    nextCourseId: nat,
    nextMeetingId: nat,
    nextRequestId: nat)

  /** The name a user authenticates with. */
  function Username(u: User): string
  {
    u.email
  }

  /** One reading of the phone pattern `^\+\d{1,3}\d{1,15}$`: a country
      code of `k` digits followed by a subscriber number of 1 to 15 digits. */
  predicate PhoneSplit(s: string, k: nat)
  {
    && 1 <= k <= 3
    && 1 + k < |s|
    && |s| - (1 + k) <= 15
    && AllDigits(s[1..1 + k])
    && AllDigits(s[1 + k..])
  }

  /** The bean-validation pattern on `User.phoneNumber`, matched against the
      whole value as Java's `Matcher.matches` does. */
  predicate PhonePattern(s: string)
  {
    |s| > 0 && s[0] == '+' && exists k | 1 <= k <= 3 :: PhoneSplit(s, k)
  }

  /** The phone pattern accepts exactly '+' followed by 2 to 18 digits. */
  lemma PhonePatternShape(s: string)
    ensures PhonePattern(s) <==> (3 <= |s| <= 19 && s[0] == '+' && AllDigits(s[1..]))
  {
    if PhonePattern(s) {
      var k :| 1 <= k <= 3 && PhoneSplit(s, k);
      assert s[1..] == s[1..1 + k] + s[1 + k..];
      assert forall i | 0 <= i < |s[1..]| :: IsAsciiDigit(s[1..][i]) by {
        forall i | 0 <= i < |s[1..]|
          ensures IsAsciiDigit(s[1..][i])
        {
          if i < k {
            assert s[1..][i] == s[1..1 + k][i];
          } else {
            assert s[1..][i] == s[1 + k..][i - k];
          }
        }
      }
    }
    if 3 <= |s| <= 19 && s[0] == '+' && AllDigits(s[1..]) {
      var k := if |s| - 1 <= 16 then 1 else |s| - 16;
      var t := s[1..];
      assert s[1..1 + k] == t[0..k] && s[1 + k..] == t[k..|t|];
      AllDigitsSlice(t, 0, k);
      AllDigitsSlice(t, k, |t|);
      assert PhoneSplit(s, k);
    }
  }

  /** A phone written without the leading '+' is refused. */
  lemma LocalPhoneRefused()
    ensures !PhonePattern("0949111111")
  {
  }

  /** No element of the list occurs twice. */
  predicate NoDuplicates(s: seq<UserId>)
  {
    forall i, j | 0 <= i < j < |s| :: s[i] != s[j]
  }

  /** The unique constraint on the `email` column. */
  predicate EmailsUnique(users: map<UserId, User>)
  {
    forall a, b | a in users && b in users && users[a].email == users[b].email :: a == b
  }

  /** The bean-validation constraints a stored user row satisfies. */
  predicate RowConstraints(u: User)
  {
    u.phoneNumber.Some? ==> PhonePattern(u.phoneNumber.value)
  }

  predicate AtMostOneRequestPerUser(requests: map<RequestId, TeachingRequest>)
  {
    forall a, b | a in requests && b in requests && requests[a].teacher == requests[b].teacher :: a == b
  }

  /** What every reachable database satisfies: rows keyed by their own id,
      the column constraints, id sequences ahead of every key, duplicate-free
      course rosters and at most one teaching request per user. */
  predicate Valid(db: Store)
  {
    && (forall k | k in db.users :: db.users[k].id == k && RowConstraints(db.users[k]))
    && EmailsUnique(db.users)
    && (forall k | k in db.courses :: k < db.nextCourseId && NoDuplicates(db.courses[k].students))
    && (forall k | k in db.meetings :: k < db.nextMeetingId)
    && (forall k | k in db.requests :: k < db.nextRequestId)
    && AtMostOneRequestPerUser(db.requests)
  }

  /** The username identifies a stored user: two rows with the same
      username are the same row. */
  lemma UsernameIdentifiesUser(db: Store, a: UserId, b: UserId)
    requires Valid(db)
    requires a in db.users && b in db.users
    requires Username(db.users[a]) == Username(db.users[b])
    ensures a == b && db.users[a] == db.users[b]
  {
  }
}
