/** The teaching-request workflow: a student applies to become a teacher, an
    admin lists the requests and decides them. A decision is persisted
    before its cascade runs, so a failing cascade leaves the new status in
    place; the outcome of a decision therefore carries a state even when it
    carries an error. Approval takes the target out of every course it
    attends and makes it a teacher; rejection removes every course it
    teaches and makes it a student. */
module TeachingService {
  import opened Common
  import opened Entities
  import opened MeetingRepository
  import CourseService
  import UserService

  const OnlyStudentApplies := Custom("Only student can apply for teacher status.", BAD_REQUEST)
  const RequestExists := Custom("Teaching request already exists.", CONFLICT)
  const OnlyAdminLists := Custom("Only admin can get teaching requests.", BAD_REQUEST)
  const OnlyAdminDecides := Custom("Only admin can update teaching request status.", BAD_REQUEST)
  const RequestMissing := Custom("Teaching request not found.", NOT_FOUND)

  /** The status name in lower case, as it appears in messages. */
  function StatusWord(s: RequestStatus): string
  {
    match s
    case PENDING => "pending"
    case APPROVED => "approved"
    case REJECTED => "rejected"
  }

  /** The error for re-deciding a request with the status it already has. */
  function AlreadyDecided(s: RequestStatus): Error
  {
    Custom("Teaching request already " + StatusWord(s) + ".", BAD_REQUEST)
  }

  /** `existsByTeacher`: some request, of any status, was filed by the user. */
  predicate HasRequest(requests: map<RequestId, TeachingRequest>, userId: UserId)
  {
    exists k | k in requests :: requests[k].teacher == userId
  }

  /** `applyTeacher(user)`: a pending request stamped with `now` is saved
      under the next id. */
  function ApplyTeacher(db: Store, user: Option<User>, now: int): (r: Result<Store>)
    ensures user.None? ==> r == Err(UserMissing)
    ensures user.Some? && user.value.role != STUDENT ==> r == Err(OnlyStudentApplies)
    ensures user.Some? && user.value.role == STUDENT && HasRequest(db.requests, user.value.id) ==>
              r == Err(RequestExists)
    ensures r.Ok? <==> user.Some? && user.value.role == STUDENT && !HasRequest(db.requests, user.value.id)
    ensures r.Ok? ==>
              r.value == db.(requests := db.requests[db.nextRequestId := TeachingRequest(user.value.id, now, PENDING)],
                             nextRequestId := db.nextRequestId + 1)
  {
    match user
    case None => Err(UserMissing)
    case Some(u) =>
      if u.role != STUDENT then Err(OnlyStudentApplies)
      else if HasRequest(db.requests, u.id) then Err(RequestExists)
      else Ok(db.(requests := db.requests[db.nextRequestId := TeachingRequest(u.id, now, PENDING)],
                  nextRequestId := db.nextRequestId + 1))
  }

  /** A successful application adds exactly one request and keeps every
      user at no more than one request. */
  lemma ApplyKeepsValid(db: Store, user: Option<User>, now: int)
    requires Valid(db)
    requires ApplyTeacher(db, user, now).Ok?
    ensures db.nextRequestId !in db.requests
    ensures ApplyTeacher(db, user, now).value.requests.Keys == db.requests.Keys + {db.nextRequestId}
    ensures Valid(ApplyTeacher(db, user, now).value)
  {
    assert forall k | k in db.requests :: db.requests[k].teacher != user.value.id;
  }

  /** Applying twice in a row is refused with a conflict. */
  lemma ApplyTwiceRefused(db: Store, user: Option<User>, now: int, later: int)
    requires ApplyTeacher(db, user, now).Ok?
    ensures ApplyTeacher(ApplyTeacher(db, user, now).value, user, later) == Err(RequestExists)
  {
    var db' := ApplyTeacher(db, user, now).value;
    assert db'.requests[db.nextRequestId].teacher == user.value.id;
  }

  /** `getTeachingRequests(user)`: every request, unfiltered, for an admin. */
  function GetTeachingRequests(db: Store, user: Option<User>): (r: Result<seq<RequestId>>)
    ensures user.None? ==> r == Err(UserMissing)
    ensures user.Some? && user.value.role != ADMIN ==> r == Err(OnlyAdminLists)
    ensures r.Ok? <==> user.Some? && user.value.role == ADMIN
    ensures r.Ok? ==> StrictlyIncreasing(r.value) && forall k :: k in r.value <==> k in db.requests
  {
    match user
    case None => Err(UserMissing)
    case Some(u) =>
      if u.role != ADMIN then Err(OnlyAdminLists)
      else Ok(Ascending(db.requests.Keys))
  }

  // ---------------------------------------------------------------------
  // Deciding a request

  /** The state after a decision, and the error that interrupted it, if any. */
  datatype Outcome = Outcome(state: Store, failure: Option<Error>)

  /** The approval cascade: `deleteFromCourse` for each listed course, in
      order, stopping at the first error. */
  function LeaveEach(db: Store, target: User, ids: seq<CourseId>, now: int): (r: Outcome)
    ensures r.state.users == db.users && r.state.requests == db.requests && r.state.tokens == db.tokens
    decreases |ids|
  {
    if ids == [] then Outcome(db, None)
    else match CourseService.DeleteFromCourse(db, Some(target), ids[0], now)
      case Err(e) => Outcome(db, Some(e))
      case Ok(db') => LeaveEach(db', target, ids[1..], now)
  }

  /** The rejection cascade: `removeCourse` for each listed course, in
      order, stopping at the first error. */
  function RemoveEach(db: Store, target: User, ids: seq<CourseId>): (r: Outcome)
    ensures r.state.users == db.users && r.state.requests == db.requests && r.state.tokens == db.tokens
    decreases |ids|
  {
    if ids == [] then Outcome(db, None)
    else match CourseService.RemoveCourse(db, ids[0], Some(target))
      case Err(e) => Outcome(db, Some(e))
      case Ok(db') => RemoveEach(db', target, ids[1..])
  }

  /** `setRole` at the end of a cascade that did not fail. */
  function ThenSetRole(o: Outcome, target: User, role: Role): (r: Outcome)
    ensures o.failure.Some? ==> r == o
    ensures r.state.requests == o.state.requests
  {
    if o.failure.Some? then o
    else match UserService.SetRole(o.state, target, role)
      case Err(e) => Outcome(o.state, Some(e))
      case Ok(db') => Outcome(db', None)
  }

  /** `updateTeachingRequestStatus(requestId, target, admin, status)`. The
      checks on the admin, the request and a repeated decision come before
      any write; then the status is saved, and then the cascade runs. */
  function UpdateTeachingRequestStatus(db: Store, requestId: RequestId, target: User, admin: Option<User>,
                                       status: RequestStatus, now: int): (r: Outcome)
    ensures admin.None? ==> r == Outcome(db, Some(UserMissing))
    ensures admin.Some? && admin.value.role != ADMIN ==> r == Outcome(db, Some(OnlyAdminDecides))
    ensures admin.Some? && admin.value.role == ADMIN && requestId !in db.requests ==>
              r == Outcome(db, Some(RequestMissing))
    ensures (admin.Some? && admin.value.role == ADMIN && requestId in db.requests
             && status != PENDING && db.requests[requestId].status == status) ==>
              r == Outcome(db, Some(AlreadyDecided(status)))
    ensures (admin.Some? && admin.value.role == ADMIN && requestId in db.requests
             && (status == PENDING || db.requests[requestId].status != status)) ==>
              r.state.requests == db.requests[requestId := db.requests[requestId].(status := status)]
    ensures (admin.Some? && admin.value.role == ADMIN && requestId in db.requests && status == PENDING) ==>
              r == Outcome(db.(requests := db.requests[requestId := db.requests[requestId].(status := PENDING)]), None)
  {
    if admin.None? then Outcome(db, Some(UserMissing))
    else if admin.value.role != ADMIN then Outcome(db, Some(OnlyAdminDecides))
    else if requestId !in db.requests then Outcome(db, Some(RequestMissing))
    else
      var request := db.requests[requestId];
      if (status == APPROVED && request.status == APPROVED) || (status == REJECTED && request.status == REJECTED) then
        Outcome(db, Some(AlreadyDecided(status)))
      else
        var saved := db.(requests := db.requests[requestId := request.(status := status)]);
        match status
        case APPROVED =>
          (match CourseService.GetStudentCourses(saved, Some(target))
           case Err(e) => Outcome(saved, Some(e))
           case Ok(ids) => ThenSetRole(LeaveEach(saved, target, ids, now), target, TEACHER))
        case REJECTED =>
          (match CourseService.GetTeacherCourses(saved, Some(target))
           case Err(e) => Outcome(saved, Some(e))
           case Ok(ids) => ThenSetRole(RemoveEach(saved, target, ids), target, STUDENT))
        case PENDING => Outcome(saved, None)
  }

  /** The state right after the status is saved. */
  function Saved(db: Store, requestId: RequestId, status: RequestStatus): Store
    requires requestId in db.requests
  {
    db.(requests := db.requests[requestId := db.requests[requestId].(status := status)])
  }

  /** A decision whose cascade cannot start still persists the status:
      approving a target that is not a student, or rejecting one that is
      not a teacher, fails after the save. */
  lemma CascadeFailureKeepsStatus(db: Store, requestId: RequestId, target: User, admin: User,
                                  status: RequestStatus, now: int)
    requires admin.role == ADMIN && requestId in db.requests
    requires status != PENDING && db.requests[requestId].status != status
    requires status == APPROVED ==> target.role != STUDENT
    requires status == REJECTED ==> target.role != TEACHER
    ensures UpdateTeachingRequestStatus(db, requestId, target, Some(admin), status, now)
            == Outcome(Saved(db, requestId, status),
                       Some(if status == APPROVED then CourseService.OnlyStudentListing else CourseService.OnlyTeacherListing))
  {
  }

  /** Only a decision equal to the stored one is refused: a request that
      was approved can still be rejected, and the other way round. */
  lemma OtherDecisionNotBlocked(db: Store, requestId: RequestId, target: User, admin: User, now: int)
    requires admin.role == ADMIN && requestId in db.requests
    requires db.requests[requestId].status != PENDING
    ensures var other := if db.requests[requestId].status == APPROVED then REJECTED else APPROVED;
            var r := UpdateTeachingRequestStatus(db, requestId, target, Some(admin), other, now);
            r.state.requests[requestId].status == other
  {
  }

  /** Once a decision got past its checks, repeating it is refused and
      changes nothing, whether or not its cascade completed. */
  lemma DecideTwiceRefused(db: Store, requestId: RequestId, target: User, admin: User,
                           status: RequestStatus, now: int, later: int)
    requires admin.role == ADMIN && requestId in db.requests && status != PENDING
    requires db.requests[requestId].status != status
    ensures var first := UpdateTeachingRequestStatus(db, requestId, target, Some(admin), status, now);
            UpdateTeachingRequestStatus(first.state, requestId, target, Some(admin), status, later)
            == Outcome(first.state, Some(AlreadyDecided(status)))
  {
  }

  // ---------------------------------------------------------------------
  // The cascades in bulk

  /** Whether leaving the courses `courses` deletes a meeting: a past
      meeting of one of them that is unclaimed or held by the leaver. */
  predicate SweptOnLeave(m: Meeting, courses: set<CourseId>, uid: UserId, now: int)
  {
    m.course in courses && (m.student.None? || m.student == Some(uid)) && m.beginning < now
  }

  /** The meetings after `uid` leaves every course in `courses` at once:
      past meetings of those courses that are unclaimed or were the
      leaver's are deleted, the leaver's future ones are released, and the
      rest are kept as they were. */
  function LeaveMeetings(ms: Meetings, courses: set<CourseId>, uid: UserId, now: int): (r: Meetings)
    ensures forall k :: k in r <==> k in ms && !SweptOnLeave(ms[k], courses, uid, now)
  {
    map k | k in ms && !SweptOnLeave(ms[k], courses, uid, now) ::
      if ms[k].course in courses && ms[k].student == Some(uid) then ms[k].(student := None) else ms[k]
  }

  /** The rosters after `uid` leaves every course in `courses`. */
  function LeaveRosters(cs: map<CourseId, Course>, uid: UserId, courses: set<CourseId>): (r: map<CourseId, Course>)
    ensures r.Keys == cs.Keys
  {
    map k | k in cs :: if k in courses then cs[k].(students := CourseService.Without(cs[k].students, uid)) else cs[k]
  }

  /** The database after `uid` leaves every course in `courses` at once. */
  function LeaveCourses(db: Store, uid: UserId, courses: set<CourseId>, now: int): Store
  {
    db.(courses := LeaveRosters(db.courses, uid, courses), meetings := LeaveMeetings(db.meetings, courses, uid, now))
  }

  /** The database after every course in `courses` and all their meetings are deleted. */
  function DropCourses(db: Store, courses: set<CourseId>): Store
  {
    db.(courses := map k | k in db.courses && k !in courses :: db.courses[k],
        meetings := map k | k in db.meetings && db.meetings[k].course !in courses :: db.meetings[k])
  }

  /** Leaving one course is the bulk definition for that single course. */
  lemma LeaveOneIsBulk(ms: Meetings, courseId: CourseId, uid: UserId, now: int)
    ensures CourseService.LeaveCourseMeetings(ms, courseId, uid, now) == LeaveMeetings(ms, {courseId}, uid, now)
  {
    var a := CourseService.LeaveCourseMeetings(ms, courseId, uid, now);
    var b := LeaveMeetings(ms, {courseId}, uid, now);
    forall k | k in ms
      ensures k in a <==> k in b
      ensures k in a ==> a[k] == b[k]
    {
    }
  }

  /** One successful `deleteFromCourse` is the bulk departure from that course. */
  lemma DeleteFromCourseIsLeaveOne(db: Store, target: User, c: CourseId, now: int)
    requires target.role == STUDENT && c in db.courses && target.id in db.courses[c].students
    ensures CourseService.DeleteFromCourse(db, Some(target), c, now) == Ok(LeaveCourses(db, target.id, {c}, now))
  {
    LeaveOneIsBulk(db.meetings, c, target.id, now);
    var db1 := CourseService.DeleteFromCourse(db, Some(target), c, now).value;
    assert db1.courses == LeaveRosters(db.courses, target.id, {c});
  }

  /** Leaving the courses of `first` and then those of `second` is leaving all of them. */
  lemma LeaveMeetingsCompose(ms: Meetings, first: set<CourseId>, second: set<CourseId>, uid: UserId, now: int)
    ensures LeaveMeetings(LeaveMeetings(ms, first, uid, now), second, uid, now)
            == LeaveMeetings(ms, first + second, uid, now)
  {
    var a := LeaveMeetings(LeaveMeetings(ms, first, uid, now), second, uid, now);
    var b := LeaveMeetings(ms, first + second, uid, now);
    forall k | k in ms
      ensures k in a <==> k in b
      ensures k in a ==> a[k] == b[k]
    {
    }
  }

  lemma LeaveRostersCompose(cs: map<CourseId, Course>, uid: UserId, first: set<CourseId>, second: set<CourseId>)
    requires first !! second
    ensures LeaveRosters(LeaveRosters(cs, uid, first), uid, second) == LeaveRosters(cs, uid, first + second)
  {
    var a := LeaveRosters(LeaveRosters(cs, uid, first), uid, second);
    var b := LeaveRosters(cs, uid, first + second);
    forall k | k in cs
      ensures a[k] == b[k]
    {
    }
  }

  lemma LeaveCoursesCompose(db: Store, uid: UserId, first: set<CourseId>, second: set<CourseId>, now: int)
    requires first !! second
    ensures LeaveCourses(LeaveCourses(db, uid, first, now), uid, second, now) == LeaveCourses(db, uid, first + second, now)
  {
    LeaveRostersCompose(db.courses, uid, first, second);
    LeaveMeetingsCompose(db.meetings, first, second, uid, now);
  }

  /** One successful `removeCourse` is the bulk deletion of that course. */
  lemma RemoveCourseIsDropOne(db: Store, target: User, c: CourseId)
    requires target.role == TEACHER && c in db.courses
    ensures CourseService.RemoveCourse(db, c, Some(target)) == Ok(DropCourses(db, {c}))
  {
    var db1 := CourseService.RemoveCourse(db, c, Some(target)).value;
    var d := DropCourses(db, {c});
    assert db1.courses == d.courses;
    assert db1.meetings == d.meetings;
  }

  lemma DropCoursesCompose(db: Store, first: set<CourseId>, second: set<CourseId>)
    ensures DropCourses(DropCourses(db, first), second) == DropCourses(db, first + second)
  {
    var a := DropCourses(DropCourses(db, first), second);
    var b := DropCourses(db, first + second);
    assert a.courses == b.courses;
    assert a.meetings == b.meetings;
  }

  lemma {:induction false} TailStrictlyIncreasing(ids: seq<nat>)
    requires StrictlyIncreasing(ids) && ids != []
    ensures StrictlyIncreasing(ids[1..]) && ids[0] !in ids[1..]
  {
    forall i, j | 0 <= i < j < |ids[1..]|
      ensures ids[1..][i] < ids[1..][j]
    {
      assert ids[1..][i] == ids[i + 1] && ids[1..][j] == ids[j + 1];
    }
    forall i | 0 <= i < |ids[1..]|
      ensures ids[1..][i] != ids[0]
    {
      assert ids[1..][i] == ids[i + 1];
    }
  }

  /** The set of the ids in a list. */
  function Elements(ids: seq<nat>): (r: set<nat>)
    ensures forall k :: k in r <==> k in ids
  {
    set k | k in ids
  }

  /** The elements of a non-empty list: its head and the elements of its tail. */
  lemma ElementsOfCons(ids: seq<nat>)
    requires ids != []
    ensures Elements(ids) == {ids[0]} + Elements(ids[1..])
  {
    forall x | x in ids
      ensures x == ids[0] || x in ids[1..]
    {
      var i :| 0 <= i < |ids| && ids[i] == x;
      if i > 0 {
        assert ids[1..][i - 1] == x;
      }
    }
  }

  /** A step of the approval cascade whose `deleteFromCourse` succeeds. */
  lemma LeaveEachStep(db: Store, target: User, ids: seq<CourseId>, now: int)
    requires ids != [] && CourseService.DeleteFromCourse(db, Some(target), ids[0], now).Ok?
    ensures LeaveEach(db, target, ids, now)
            == LeaveEach(CourseService.DeleteFromCourse(db, Some(target), ids[0], now).value, target, ids[1..], now)
  {
  }

  /** A step of the rejection cascade whose `removeCourse` succeeds. */
  lemma RemoveEachStep(db: Store, target: User, ids: seq<CourseId>)
    requires ids != [] && CourseService.RemoveCourse(db, ids[0], Some(target)).Ok?
    ensures RemoveEach(db, target, ids)
            == RemoveEach(CourseService.RemoveCourse(db, ids[0], Some(target)).value, target, ids[1..])
  {
  }

  /** When every listed course has the target on its roster, the approval
      cascade runs to the end and equals the bulk departure from them all. */
  lemma {:induction false} LeaveEachIsBulk(db: Store, target: User, ids: seq<CourseId>, now: int)
    requires target.role == STUDENT && StrictlyIncreasing(ids)
    requires forall k | k in ids :: k in db.courses && target.id in db.courses[k].students
    ensures LeaveEach(db, target, ids, now) == Outcome(LeaveCourses(db, target.id, Elements(ids), now), None)
    decreases |ids|
  {
    var uid := target.id;
    if ids == [] {
      assert Elements(ids) == {};
      assert LeaveCourses(db, uid, {}, now) == db by {
        assert LeaveMeetings(db.meetings, {}, uid, now) == db.meetings;
        assert LeaveRosters(db.courses, uid, {}) == db.courses;
      }
    } else {
      var c := ids[0];
      var rest := ids[1..];
      TailStrictlyIncreasing(ids);
      DeleteFromCourseIsLeaveOne(db, target, c, now);
      LeaveEachStep(db, target, ids, now);
      var db1 := LeaveCourses(db, uid, {c}, now);
      forall k | k in rest
        ensures k in db1.courses && uid in db1.courses[k].students
      {
        assert k in ids && k != c;
      }
      LeaveEachIsBulk(db1, target, rest, now);
      var restSet := Elements(rest);
      ElementsOfCons(ids);
      LeaveCoursesCompose(db, uid, {c}, restSet, now);
    }
  }

  /** When every listed course exists and the target is a teacher, the
      rejection cascade runs to the end and equals the bulk deletion. */
  lemma {:induction false} RemoveEachIsBulk(db: Store, target: User, ids: seq<CourseId>)
    requires target.role == TEACHER && StrictlyIncreasing(ids)
    requires forall k | k in ids :: k in db.courses
    ensures RemoveEach(db, target, ids) == Outcome(DropCourses(db, Elements(ids)), None)
    decreases |ids|
  {
    if ids == [] {
      var d := DropCourses(db, {});
      assert Elements(ids) == {};
      assert d.courses == db.courses && d.meetings == db.meetings;
    } else {
      var c := ids[0];
      var rest := ids[1..];
      TailStrictlyIncreasing(ids);
      RemoveCourseIsDropOne(db, target, c);
      RemoveEachStep(db, target, ids);
      var db1 := DropCourses(db, {c});
      forall k | k in rest
        ensures k in db1.courses
      {
        assert k in ids && k != c;
      }
      RemoveEachIsBulk(db1, target, rest);
      var restSet := Elements(rest);
      ElementsOfCons(ids);
      DropCoursesCompose(db, {c}, restSet);
    }
  }

  /** The courses whose roster holds `uid`. */
  function Attended(db: Store, uid: UserId): (r: set<CourseId>)
    ensures forall k :: k in r <==> k in db.courses && uid in db.courses[k].students
  {
    set k | k in db.courses && uid in db.courses[k].students
  }

  /** The courses taught by `uid`. */
  function Taught(db: Store, uid: UserId): (r: set<CourseId>)
    ensures forall k :: k in r <==> k in db.courses && db.courses[k].teacher == Some(uid)
  {
    set k | k in db.courses && db.courses[k].teacher == Some(uid)
  }

  /** An approval that passes its checks saves the status, runs the
      departure cascade over the target's courses and then `setRole`. */
  lemma ApproveUnfolds(db: Store, requestId: RequestId, target: User, admin: User, now: int)
    requires admin.role == ADMIN && requestId in db.requests && db.requests[requestId].status != APPROVED
    requires target.role == STUDENT
    ensures CourseService.GetStudentCourses(Saved(db, requestId, APPROVED), Some(target)).Ok?
    ensures UpdateTeachingRequestStatus(db, requestId, target, Some(admin), APPROVED, now)
            == ThenSetRole(LeaveEach(Saved(db, requestId, APPROVED), target,
                                     CourseService.GetStudentCourses(Saved(db, requestId, APPROVED), Some(target)).value, now),
                           target, TEACHER)
  {
  }

  /** A rejection that passes its checks saves the status, runs the removal
      cascade over the target's courses and then `setRole`. */
  lemma RejectUnfolds(db: Store, requestId: RequestId, target: User, admin: User, now: int)
    requires admin.role == ADMIN && requestId in db.requests && db.requests[requestId].status != REJECTED
    requires target.role == TEACHER
    ensures CourseService.GetTeacherCourses(Saved(db, requestId, REJECTED), Some(target)).Ok?
    ensures UpdateTeachingRequestStatus(db, requestId, target, Some(admin), REJECTED, now)
            == ThenSetRole(RemoveEach(Saved(db, requestId, REJECTED), target,
                                      CourseService.GetTeacherCourses(Saved(db, requestId, REJECTED), Some(target)).value),
                           target, STUDENT)
  {
  }

  /** Saving a new status keeps a valid database valid. */
  lemma SavedKeepsValid(db: Store, requestId: RequestId, status: RequestStatus)
    requires Valid(db) && requestId in db.requests
    ensures Valid(Saved(db, requestId, status))
  {
    var r := Saved(db, requestId, status).requests;
    assert forall k | k in r :: r[k].teacher == db.requests[k].teacher;
  }

  /** Leaving every attended course at once keeps a valid database valid
      and leaves the user on no roster. */
  lemma LeaveAttendedKeepsValid(db: Store, uid: UserId, now: int)
    requires Valid(db)
    ensures var left := LeaveCourses(db, uid, Attended(db, uid), now);
            && Valid(left)
            && forall k | k in left.courses :: uid !in left.courses[k].students
  {
    var left := LeaveCourses(db, uid, Attended(db, uid), now);
    forall k | k in left.courses
      ensures uid !in left.courses[k].students && NoDuplicates(left.courses[k].students)
    {
      CourseService.WithoutKeepsNoDuplicates(db.courses[k].students, uid);
    }
  }

  /** Deleting any set of courses with their meetings keeps a valid database valid. */
  lemma DropCoursesKeepsValid(db: Store, courses: set<CourseId>)
    requires Valid(db)
    ensures Valid(DropCourses(db, courses))
  {
  }

  /** The closing `setRole` of a completed cascade, with the target's email
      stored in a valid database: it succeeds, gives the stored row with
      that email the role, and leaves every other row and every other
      table, tokens included, as it was. */
  lemma ClosingSetRole(db: Store, target: User, role: Role)
    requires Valid(db)
    requires exists k | k in db.users :: db.users[k].email == target.email
    ensures var r := ThenSetRole(Outcome(db, None), target, role);
            && r.failure.None?
            && r.state == db.(users := r.state.users)
            && r.state.users.Keys == db.users.Keys
            && (forall k | k in db.users && db.users[k].email == target.email :: r.state.users[k] == db.users[k].(role := role))
            && (forall k | k in db.users && db.users[k].email != target.email :: r.state.users[k] == db.users[k])
            && Valid(r.state)
  {
    UserService.SetRoleChangesOnlyRole(db, target, role);
  }

  /** An approval that passes its checks ends in `setRole` applied to the
      set-based departure from every attended course. */
  lemma ApproveReachesLeave(db: Store, requestId: RequestId, target: User, admin: User, now: int)
    requires admin.role == ADMIN && requestId in db.requests && db.requests[requestId].status != APPROVED
    requires target.role == STUDENT
    ensures UpdateTeachingRequestStatus(db, requestId, target, Some(admin), APPROVED, now)
            == ThenSetRole(Outcome(LeaveCourses(Saved(db, requestId, APPROVED), target.id, Attended(db, target.id), now), None),
                           target, TEACHER)
  {
    var saved := Saved(db, requestId, APPROVED);
    ApproveUnfolds(db, requestId, target, admin, now);
    var ids := CourseService.GetStudentCourses(saved, Some(target)).value;
    assert Elements(ids) == Attended(db, target.id);
    LeaveEachIsBulk(saved, target, ids, now);
  }

  /** A rejection that passes its checks ends in `setRole` applied to the
      set-based deletion of every taught course. */
  lemma RejectReachesDrop(db: Store, requestId: RequestId, target: User, admin: User, now: int)
    requires admin.role == ADMIN && requestId in db.requests && db.requests[requestId].status != REJECTED
    requires target.role == TEACHER
    ensures UpdateTeachingRequestStatus(db, requestId, target, Some(admin), REJECTED, now)
            == ThenSetRole(Outcome(DropCourses(Saved(db, requestId, REJECTED), Taught(db, target.id)), None),
                           target, STUDENT)
  {
    var saved := Saved(db, requestId, REJECTED);
    RejectUnfolds(db, requestId, target, admin, now);
    var ids := CourseService.GetTeacherCourses(saved, Some(target)).value;
    assert Elements(ids) == Taught(db, target.id);
    RemoveEachIsBulk(saved, target, ids);
  }

  /** Approving a student's request, with the target's email stored in a
      valid database: the status is saved, the target leaves every course
      it attended (with the meeting effects of `deleteFromCourse`), and its
      stored row becomes a teacher. */
  lemma ApproveEffects(db: Store, requestId: RequestId, target: User, admin: User, now: int)
    requires Valid(db)
    requires admin.role == ADMIN && requestId in db.requests && db.requests[requestId].status != APPROVED
    requires target.role == STUDENT
    requires exists k | k in db.users :: db.users[k].email == target.email
    ensures var r := UpdateTeachingRequestStatus(db, requestId, target, Some(admin), APPROVED, now);
            var attended := Attended(db, target.id);
            var left := LeaveCourses(Saved(db, requestId, APPROVED), target.id, attended, now);
            && r.failure.None?
            && r.state.requests == Saved(db, requestId, APPROVED).requests
            && r.state.courses == left.courses
            && r.state.meetings == LeaveMeetings(db.meetings, attended, target.id, now)
            && (forall k | k in r.state.courses :: target.id !in r.state.courses[k].students)
            && r.state.users.Keys == db.users.Keys
            && (forall k | k in db.users && db.users[k].email == target.email :: r.state.users[k].role == TEACHER)
            && Valid(r.state)
  {
    var saved := Saved(db, requestId, APPROVED);
    ApproveReachesLeave(db, requestId, target, admin, now);
    SavedKeepsValid(db, requestId, APPROVED);
    assert Attended(saved, target.id) == Attended(db, target.id);
    LeaveAttendedKeepsValid(saved, target.id, now);
    var left := LeaveCourses(saved, target.id, Attended(db, target.id), now);
    assert left.meetings == LeaveMeetings(db.meetings, Attended(db, target.id), target.id, now);
    ClosingSetRole(left, target, TEACHER);
  }

  /** Rejecting a teacher's request, with the target's email stored in a
      valid database: the status is saved, every course the target taught
      is deleted with all its meetings, and its stored row becomes a student. */
  lemma RejectEffects(db: Store, requestId: RequestId, target: User, admin: User, now: int)
    requires Valid(db)
    requires admin.role == ADMIN && requestId in db.requests && db.requests[requestId].status != REJECTED
    requires target.role == TEACHER
    requires exists k | k in db.users :: db.users[k].email == target.email
    ensures var r := UpdateTeachingRequestStatus(db, requestId, target, Some(admin), REJECTED, now);
            var taught := Taught(db, target.id);
            && r.failure.None?
            && r.state.requests == Saved(db, requestId, REJECTED).requests
            && (forall k :: k in r.state.courses <==> k in db.courses && db.courses[k].teacher != Some(target.id))
            && (forall k :: k in r.state.meetings <==> k in db.meetings && db.meetings[k].course !in taught)
            && r.state.users.Keys == db.users.Keys
            && (forall k | k in db.users && db.users[k].email == target.email :: r.state.users[k].role == STUDENT)
            && Valid(r.state)
  {
    var saved := Saved(db, requestId, REJECTED);
    RejectReachesDrop(db, requestId, target, admin, now);
    SavedKeepsValid(db, requestId, REJECTED);
    DropCoursesKeepsValid(saved, Taught(db, target.id));
    ClosingSetRole(DropCourses(saved, Taught(db, target.id)), target, STUDENT);
  }
}
