/** The course service: enrolment and unenrolment of students, the role-gated
    course listings, and creation and removal of courses. The course
    repository declares no finders of its own, so the two listings query the
    courses table directly by teacher and by roster membership. */
module CourseService {
  import opened Common
  import opened Entities
  import MeetingRepository

  const CourseMissing := Custom("Course does not exist.", NOT_FOUND)
  const TeacherMissing := Custom("Teacher does not exist.", NOT_FOUND)
  const OnlyStudentAssigns := Custom("Only student can assign to a course.", BAD_REQUEST)
  const AlreadyAssigned := Custom("User has already been assigned to this course.", BAD_REQUEST)
  const OnlyStudentRemoved := Custom("Only student can be removed from a course.", BAD_REQUEST)
  const NotAssigned := Custom("User was not assigned to this course.", BAD_REQUEST)
  const OnlyTeacherListing := Custom("Only teacher can use this endpoint: /teacherCourses.", BAD_REQUEST)
  const OnlyStudentListing := Custom("Only student can use this endpoint: /studentCourses.", BAD_REQUEST)
  const CourseNull := Custom("Course is null.", BAD_REQUEST)
  const OnlyTeacherCreates := Custom("Only teacher can create course.", BAD_REQUEST)
  const OnlyTeacherDeletes := Custom("Only teacher can delete course.", BAD_REQUEST)

  /** `getAll`: every course id, once, in ascending order. */
  function GetAll(db: Store): (r: seq<CourseId>)
    ensures StrictlyIncreasing(r)
    ensures forall k :: k in r <==> k in db.courses
  {
    Ascending(db.courses.Keys)
  }

  /** The roster with every occurrence of `x` removed, order kept (`removeIf`). */
  function Without(s: seq<UserId>, x: UserId): (r: seq<UserId>)
    ensures forall y :: y in r <==> y in s && y != x
    ensures |r| <= |s|
  {
    if s == [] then []
    else (if s[0] == x then [] else [s[0]]) + Without(s[1..], x)
  }

  lemma {:induction false} WithoutKeepsNoDuplicates(s: seq<UserId>, x: UserId)
    requires NoDuplicates(s)
    ensures NoDuplicates(Without(s, x))
  {
    if s != [] {
      WithoutKeepsNoDuplicates(s[1..], x);
      var rest := Without(s[1..], x);
      assert s[0] !in s[1..];
      assert s[0] !in rest;
      var head: seq<UserId> := if s[0] == x then [] else [s[0]];
      var r := head + rest;
      forall i, j | 0 <= i < j < |r|
        ensures r[i] != r[j]
      {
        if i < |head| {
          assert r[i] == s[0] && r[j] == rest[j - |head|];
          assert rest[j - |head|] in rest;
        } else {
          assert r[i] == rest[i - |head|] && r[j] == rest[j - |head|];
        }
      }
    }
  }

  /** Removing an appended id that was not there before gives back the roster. */
  lemma {:induction false} WithoutAppended(s: seq<UserId>, x: UserId)
    requires x !in s
    ensures Without(s + [x], x) == s
  {
    if s == [] {
      assert [] + [x] == [x];
    } else {
      assert (s + [x])[1..] == s[1..] + [x];
      WithoutAppended(s[1..], x);
    }
  }

  /** `assignToCourse`: course, then user, then role, then membership by id. */
  function AssignToCourse(db: Store, user: Option<User>, courseId: CourseId): (r: Result<Store>)
    ensures r.Ok? <==> && courseId in db.courses && user.Some? && user.value.role == STUDENT
                       && user.value.id !in db.courses[courseId].students
    ensures courseId !in db.courses ==> r == Err(CourseMissing)
    ensures courseId in db.courses && user.None? ==> r == Err(UserMissing)
    ensures courseId in db.courses && user.Some? && user.value.role != STUDENT ==> r == Err(OnlyStudentAssigns)
    ensures (courseId in db.courses && user.Some? && user.value.role == STUDENT
             && user.value.id in db.courses[courseId].students) ==> r == Err(AlreadyAssigned)
    ensures r.Ok? ==>
              var c := db.courses[courseId];
              r.value == db.(courses := db.courses[courseId := c.(students := c.students + [user.value.id])])
  {
    if courseId !in db.courses then Err(CourseMissing)
    else if user.None? then Err(UserMissing)
    else if user.value.role != STUDENT then Err(OnlyStudentAssigns)
    else
      var c := db.courses[courseId];
      if user.value.id !in c.students then
        Ok(db.(courses := db.courses[courseId := c.(students := c.students + [user.value.id])]))
      else Err(AlreadyAssigned)
  }

  /** A successful assignment keeps every roster duplicate-free, and the
      student then appears exactly once in the course. */
  lemma AssignKeepsValid(db: Store, user: Option<User>, courseId: CourseId)
    requires Valid(db)
    requires AssignToCourse(db, user, courseId).Ok?
    ensures Valid(AssignToCourse(db, user, courseId).value)
    ensures
      var roster := AssignToCourse(db, user, courseId).value.courses[courseId].students;
      user.value.id in roster && NoDuplicates(roster)
  {
    var s := db.courses[courseId].students;
    var x := user.value.id;
    var t := s + [x];
    forall i, j | 0 <= i < j < |t|
      ensures t[i] != t[j]
    {
      if j == |s| {
        assert t[i] == s[i] && s[i] in s;
      }
    }
  }

  /** An immediate second assignment of the same student is refused. */
  lemma AssignTwiceRefused(db: Store, user: Option<User>, courseId: CourseId)
    requires AssignToCourse(db, user, courseId).Ok?
    ensures AssignToCourse(AssignToCourse(db, user, courseId).value, user, courseId) == Err(AlreadyAssigned)
  {
    var db1 := AssignToCourse(db, user, courseId).value;
    assert user.value.id in db1.courses[courseId].students;
  }

  /** The effect of a successful `deleteFromCourse` on the meetings table:
      the student's claims in the course are released, then every past
      unclaimed meeting of the course is deleted. */
  function LeaveCourseMeetings(ms: MeetingRepository.Meetings, courseId: CourseId, studentId: UserId, now: int): MeetingRepository.Meetings
  {
    MeetingRepository.DeletePastMeetingsWithNullStudent(
      MeetingRepository.SetStudentToNullForCourseAndStudent(ms, courseId, studentId), courseId, now)
  }

  /** `deleteFromCourse`: course, then user, then role, then membership;
      on success the meeting updates run before the roster is saved. */
  function DeleteFromCourse(db: Store, user: Option<User>, courseId: CourseId, now: int): (r: Result<Store>)
    ensures r.Ok? <==> && courseId in db.courses && user.Some? && user.value.role == STUDENT
                       && user.value.id in db.courses[courseId].students
    ensures courseId !in db.courses ==> r == Err(CourseMissing)
    ensures courseId in db.courses && user.None? ==> r == Err(UserMissing)
    ensures courseId in db.courses && user.Some? && user.value.role != STUDENT ==> r == Err(OnlyStudentRemoved)
    ensures (courseId in db.courses && user.Some? && user.value.role == STUDENT
             && user.value.id !in db.courses[courseId].students) ==> r == Err(NotAssigned)
    ensures r.Ok? ==>
              var c := db.courses[courseId];
              var uid := user.value.id;
              && r.value.courses == db.courses[courseId := c.(students := Without(c.students, uid))]
              && uid !in r.value.courses[courseId].students
              && r.value.meetings == LeaveCourseMeetings(db.meetings, courseId, uid, now)
              && r.value.users == db.users && r.value.requests == db.requests && r.value.tokens == db.tokens
              && r.value.nextCourseId == db.nextCourseId && r.value.nextMeetingId == db.nextMeetingId
              && r.value.nextRequestId == db.nextRequestId
  {
    if courseId !in db.courses then Err(CourseMissing)
    else if user.None? then Err(UserMissing)
    else if user.value.role != STUDENT then Err(OnlyStudentRemoved)
    else
      var c := db.courses[courseId];
      var uid := user.value.id;
      if uid !in c.students then Err(NotAssigned)
      else
        var ms := LeaveCourseMeetings(db.meetings, courseId, uid, now);
        Ok(db.(meetings := ms, courses := db.courses[courseId := c.(students := Without(c.students, uid))]))
  }

  /** Meeting-level consequences of leaving a course: every meeting of the
      course the student held is released or deleted, every past unclaimed
      meeting of the course is gone (not only the leaver's), future ones the
      student held survive unclaimed, and other meetings are untouched. */
  lemma LeaveCourseMeetingsEffects(ms: MeetingRepository.Meetings, courseId: CourseId, uid: UserId, now: int)
    ensures var r := LeaveCourseMeetings(ms, courseId, uid, now);
      && (forall k | k in r :: k in ms)
      && (forall k | k in ms && ms[k].course != courseId :: k in r && r[k] == ms[k])
      && (forall k | k in ms && ms[k].course == courseId && ms[k].student == Some(uid) ::
            (k in r <==> ms[k].beginning >= now) && (k in r ==> r[k] == ms[k].(student := None)))
      && (forall k | k in ms && ms[k].course == courseId && ms[k].student.None? ::
            k in r <==> ms[k].beginning >= now)
      && (forall k | k in ms && ms[k].course == courseId && ms[k].student.Some? && ms[k].student != Some(uid) ::
            k in r && r[k] == ms[k])
      && (forall k | k in r && r[k].course == courseId :: r[k].student != Some(uid))
  {
  }

  /** After leaving, the student has left the roster and also appears in no
      meeting of that course. */
  lemma DeleteFromCourseReleasesStudent(db: Store, user: Option<User>, courseId: CourseId, now: int)
    requires DeleteFromCourse(db, user, courseId, now).Ok?
    ensures var db' := DeleteFromCourse(db, user, courseId, now).value;
      && user.value.id !in db'.courses[courseId].students
      && forall k | k in db'.meetings && db'.meetings[k].course == courseId :: db'.meetings[k].student != Some(user.value.id)
  {
    LeaveCourseMeetingsEffects(db.meetings, courseId, user.value.id, now);
  }

  lemma DeleteFromCourseKeepsValid(db: Store, user: Option<User>, courseId: CourseId, now: int)
    requires Valid(db)
    requires DeleteFromCourse(db, user, courseId, now).Ok?
    ensures Valid(DeleteFromCourse(db, user, courseId, now).value)
  {
    WithoutKeepsNoDuplicates(db.courses[courseId].students, user.value.id);
  }

  /** Enrolling and then leaving gives the course table back unchanged. */
  lemma AssignThenDeleteRestoresCourses(db: Store, user: Option<User>, courseId: CourseId, now: int)
    requires AssignToCourse(db, user, courseId).Ok?
    ensures var db1 := AssignToCourse(db, user, courseId).value;
      && DeleteFromCourse(db1, user, courseId, now).Ok?
      && DeleteFromCourse(db1, user, courseId, now).value.courses == db.courses
  {
    var c := db.courses[courseId];
    WithoutAppended(c.students, user.value.id);
    assert c.(students := c.students) == c;
  }

  /** `getTeacherCourses`: the courses whose teacher is the caller. */
  function GetTeacherCourses(db: Store, user: Option<User>): (r: Result<seq<CourseId>>)
    ensures user.None? ==> r == Err(UserMissing)
    ensures user.Some? && user.value.role != TEACHER ==> r == Err(OnlyTeacherListing)
    ensures r.Ok? <==> user.Some? && user.value.role == TEACHER
    ensures r.Ok? ==> StrictlyIncreasing(r.value)
    ensures r.Ok? ==> forall k :: k in r.value <==> k in db.courses && db.courses[k].teacher == Some(user.value.id)
  {
    if user.None? then Err(UserMissing)
    else if user.value.role != TEACHER then Err(OnlyTeacherListing)
    else Ok(Ascending(set k | k in db.courses && db.courses[k].teacher == Some(user.value.id)))
  }

  /** `getStudentCourses`: the courses whose roster holds the caller. */
  function GetStudentCourses(db: Store, user: Option<User>): (r: Result<seq<CourseId>>)
    ensures user.None? ==> r == Err(UserMissing)
    ensures user.Some? && user.value.role != STUDENT ==> r == Err(OnlyStudentListing)
    ensures r.Ok? <==> user.Some? && user.value.role == STUDENT
    ensures r.Ok? ==> StrictlyIncreasing(r.value)
    ensures r.Ok? ==> forall k :: k in r.value <==> k in db.courses && user.value.id in db.courses[k].students
  {
    if user.None? then Err(UserMissing)
    else if user.value.role != STUDENT then Err(OnlyStudentListing)
    else Ok(Ascending(set k | k in db.courses && user.value.id in db.courses[k].students))
  }

  /** The key `save` writes to: the course's own id when it names a stored
      course (a merge over that row), the next value of the sequence
      otherwise. */
  function SaveKey(db: Store, id: Option<CourseId>): CourseId
  {
    if id.Some? && id.value in db.courses then id.value else db.nextCourseId
  }

  /** `saveCourse`: null course, then user, then role; the course is saved
      with the caller as its teacher. A course whose id names a stored
      course overwrites it, whoever taught it; any other is inserted under
      the next id of the sequence. */
  function SaveCourse(db: Store, user: Option<User>, course: Option<Course>, id: Option<CourseId>): (r: Result<Store>)
    ensures course.None? ==> r == Err(CourseNull)
    ensures course.Some? && user.None? ==> r == Err(TeacherMissing)
    ensures course.Some? && user.Some? && user.value.role != TEACHER ==> r == Err(OnlyTeacherCreates)
    ensures r.Ok? <==> course.Some? && user.Some? && user.value.role == TEACHER
    ensures r.Ok? ==>
              var k := SaveKey(db, id);
              && k in r.value.courses
              && r.value.courses[k].teacher == Some(user.value.id)
              && r.value.courses[k].students == course.value.students
              && r.value.courses[k].name == course.value.name
              && r.value.courses[k].room == course.value.room
              && (forall k' | k' in db.courses && k' != k :: k' in r.value.courses && r.value.courses[k'] == db.courses[k'])
              && r.value.meetings == db.meetings && r.value.users == db.users && r.value.requests == db.requests
              && r.value.tokens == db.tokens
    ensures r.Ok? && id.Some? && id.value in db.courses ==>
              r.value.courses.Keys == db.courses.Keys && r.value.nextCourseId == db.nextCourseId
    ensures r.Ok? && !(id.Some? && id.value in db.courses) ==>
              r.value.courses.Keys == db.courses.Keys + {db.nextCourseId} && r.value.nextCourseId == db.nextCourseId + 1
  {
    if course.None? then Err(CourseNull)
    else if user.None? then Err(TeacherMissing)
    else if user.value.role != TEACHER then Err(OnlyTeacherCreates)
    else
      var saved := course.value.(teacher := Some(user.value.id));
      if id.Some? && id.value in db.courses then Ok(db.(courses := db.courses[id.value := saved]))
      else Ok(db.(courses := db.courses[db.nextCourseId := saved], nextCourseId := db.nextCourseId + 1))
  }

  /** In a valid database a merge keeps the course keys and an insert adds
      exactly one fresh course; either way the database stays valid,
      provided the submitted roster is duplicate-free. */
  lemma SaveCourseKeepsValid(db: Store, user: Option<User>, course: Option<Course>, id: Option<CourseId>)
    requires Valid(db)
    requires SaveCourse(db, user, course, id).Ok?
    requires NoDuplicates(course.value.students)
    ensures db.nextCourseId !in db.courses
    ensures SaveKey(db, id) == db.nextCourseId <==> !(id.Some? && id.value in db.courses)
    ensures Valid(SaveCourse(db, user, course, id).value)
  {
  }

  /** Saving over a stored id never compares the caller with the course's
      teacher: any teacher can take over another teacher's course, keeping
      its id. */
  lemma SaveCourseTakesOver(db: Store, teacher: User, course: Course, courseId: CourseId)
    requires teacher.role == TEACHER
    requires courseId in db.courses && db.courses[courseId].teacher != Some(teacher.id)
    ensures var r := SaveCourse(db, Some(teacher), Some(course), Some(courseId));
            && r.Ok?
            && r.value.courses.Keys == db.courses.Keys
            && r.value.courses[courseId].teacher == Some(teacher.id)
  {
  }

  /** `removeCourse`: course, then user, then role; the caller is never
      compared with the course's teacher. All meetings of the course are
      deleted, then the course. */
  function RemoveCourse(db: Store, courseId: CourseId, user: Option<User>): (r: Result<Store>)
    ensures courseId !in db.courses ==> r == Err(CourseMissing)
    ensures courseId in db.courses && user.None? ==> r == Err(TeacherMissing)
    ensures courseId in db.courses && user.Some? && user.value.role != TEACHER ==> r == Err(OnlyTeacherDeletes)
    ensures r.Ok? <==> courseId in db.courses && user.Some? && user.value.role == TEACHER
    ensures r.Ok? ==>
              && r.value.courses == db.courses - {courseId}
              && (forall k :: k in r.value.meetings <==> k in db.meetings && db.meetings[k].course != courseId)
              && (forall k | k in r.value.meetings :: r.value.meetings[k] == db.meetings[k])
              && r.value.users == db.users && r.value.requests == db.requests && r.value.tokens == db.tokens
              && r.value.nextCourseId == db.nextCourseId && r.value.nextMeetingId == db.nextMeetingId
              && r.value.nextRequestId == db.nextRequestId
  {
    if courseId !in db.courses then Err(CourseMissing)
    else if user.None? then Err(TeacherMissing)
    else if user.value.role != TEACHER then Err(OnlyTeacherDeletes)
    else
      var meetings := MeetingRepository.FindByCourse(db.meetings, courseId);
      Ok(db.(meetings := MeetingRepository.DeleteAll(db.meetings, meetings), courses := db.courses - {courseId}))
  }

  /** Any teacher may remove any course, including one taught by someone else. */
  lemma RemoveCourseIgnoresOwner(db: Store, courseId: CourseId, caller: User)
    requires courseId in db.courses && caller.role == TEACHER
    requires db.courses[courseId].teacher != Some(caller.id)
    ensures RemoveCourse(db, courseId, Some(caller)).Ok?
  {
  }

  lemma RemoveCourseKeepsValid(db: Store, courseId: CourseId, user: Option<User>)
    requires Valid(db)
    requires RemoveCourse(db, courseId, user).Ok?
    ensures Valid(RemoveCourse(db, courseId, user).value)
  {
  }
}
