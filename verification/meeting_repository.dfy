/** The query semantics of the meeting repository: the derived finders, the
    two native time-range queries and the two bulk updates, as functions over
    the meetings table. Finders return ids in ascending order. */
module MeetingRepository {
  import opened Common
  import opened Entities

  type Meetings = map<MeetingId, Meeting>

  /** The range condition of both native queries:
      `beginning < end AND beginning + duration minutes > start`. */
  predicate InRange(m: Meeting, start: int, end: int)
  {
    m.beginning < end && m.beginning + m.duration > start
  }

  /** Meetings given by the teacher that intersect `[start, end)`. */
  function FindByTeacherAndTimeRange(ms: Meetings, teacherId: UserId, start: int, end: int): (r: seq<MeetingId>)
    ensures StrictlyIncreasing(r)
    ensures forall k :: k in r <==> k in ms && ms[k].teacher == teacherId && InRange(ms[k], start, end)
  {
    Ascending(set k | k in ms && ms[k].teacher == teacherId && InRange(ms[k], start, end))
  }

  /** Meetings claimed by the student that intersect `[start, end)`. */
  function FindByStudentAndTimeRange(ms: Meetings, studentId: UserId, start: int, end: int): (r: seq<MeetingId>)
    ensures StrictlyIncreasing(r)
    ensures forall k :: k in r <==> k in ms && ms[k].student == Some(studentId) && InRange(ms[k], start, end)
  {
    Ascending(set k | k in ms && ms[k].student == Some(studentId) && InRange(ms[k], start, end))
  }

  /** The unclaimed meetings of a course (`findAllByCourse_IdAndStudentIsNull`). */
  function FindAllByCourseIdAndStudentIsNull(ms: Meetings, courseId: CourseId): (r: seq<MeetingId>)
    ensures StrictlyIncreasing(r)
    ensures forall k :: k in r <==> k in ms && ms[k].course == courseId && ms[k].student.None?
  {
    Ascending(set k | k in ms && ms[k].course == courseId && ms[k].student.None?)
  }

  /** The meetings of a course claimed by a student (`findAllByCourse_IdAndStudent_Id`). */
  function FindAllByCourseIdAndStudentId(ms: Meetings, courseId: CourseId, studentId: UserId): (r: seq<MeetingId>)
    ensures StrictlyIncreasing(r)
    ensures forall k :: k in r <==> k in ms && ms[k].course == courseId && ms[k].student == Some(studentId)
  {
    Ascending(set k | k in ms && ms[k].course == courseId && ms[k].student == Some(studentId))
  }

  /** All meetings of a course (`findByCourse`). */
  function FindByCourse(ms: Meetings, courseId: CourseId): (r: seq<MeetingId>)
    ensures StrictlyIncreasing(r)
    ensures forall k :: k in r <==> k in ms && ms[k].course == courseId
  {
    Ascending(set k | k in ms && ms[k].course == courseId)
  }

  /** All meetings given by a teacher (`findAllByTeacher_Id`). */
  function FindAllByTeacherId(ms: Meetings, teacherId: UserId): (r: seq<MeetingId>)
    ensures StrictlyIncreasing(r)
    ensures forall k :: k in r <==> k in ms && ms[k].teacher == teacherId
  {
    Ascending(set k | k in ms && ms[k].teacher == teacherId)
  }

  /** All meetings claimed by a student (`findAllByStudent_Id`). */
  function FindAllByStudentId(ms: Meetings, studentId: UserId): (r: seq<MeetingId>)
    ensures StrictlyIncreasing(r)
    ensures forall k :: k in r <==> k in ms && ms[k].student == Some(studentId)
  {
    Ascending(set k | k in ms && ms[k].student == Some(studentId))
  }

  /** Whether the bulk update below touches a meeting. */
  predicate HeldInCourse(m: Meeting, courseId: CourseId, studentId: UserId)
  {
    m.course == courseId && m.student == Some(studentId)
  }

  /** `UPDATE ... SET student = NULL WHERE course.id = ?1 AND student.id = ?2` */
  function SetStudentToNullForCourseAndStudent(ms: Meetings, courseId: CourseId, studentId: UserId): (r: Meetings)
    ensures r.Keys == ms.Keys
    ensures forall k | k in ms && HeldInCourse(ms[k], courseId, studentId) :: r[k] == ms[k].(student := None)
    ensures forall k | k in ms && !HeldInCourse(ms[k], courseId, studentId) :: r[k] == ms[k]
  {
    map k | k in ms :: if HeldInCourse(ms[k], courseId, studentId) then ms[k].(student := None) else ms[k]
  }

  /** Whether the bulk delete below removes a meeting. */
  predicate PastUnclaimedInCourse(m: Meeting, courseId: CourseId, now: int)
  {
    m.course == courseId && m.student.None? && m.beginning < now
  }

  /** `DELETE ... WHERE course.id = ?1 AND student IS NULL AND beginning < ?2` */
  function DeletePastMeetingsWithNullStudent(ms: Meetings, courseId: CourseId, now: int): (r: Meetings)
    ensures forall k :: k in r <==> k in ms && !PastUnclaimedInCourse(ms[k], courseId, now)
    ensures forall k | k in r :: r[k] == ms[k]
  {
    map k | k in ms && !PastUnclaimedInCourse(ms[k], courseId, now) :: ms[k]
  }

  /** `deleteAll` of the listed rows. */
  function DeleteAll(ms: Meetings, ids: seq<MeetingId>): (r: Meetings)
    ensures forall k :: k in r <==> k in ms && k !in ids
    ensures forall k | k in r :: r[k] == ms[k]
  {
    map k | k in ms && k !in ids :: ms[k]
  }

  // ---------------------------------------------------------------------
  // Properties of the range condition

  /** Two meetings conflict when each begins before the other ends. */
  predicate Conflict(a: Meeting, b: Meeting)
  {
    InRange(a, b.beginning, b.beginning + b.duration)
  }

  /** No two meetings held by the same student overlap in time. */
  predicate NotDoubleBooked(ms: Meetings)
  {
    forall a, b | a in ms && b in ms && a != b && ms[a].student.Some? && ms[a].student == ms[b].student ::
      !Conflict(ms[a], ms[b])
  }

  /** The range condition is symmetric in the two intervals. */
  lemma ConflictSymmetric(a: Meeting, b: Meeting)
    ensures Conflict(a, b) <==> Conflict(b, a)
  {
  }

  /** Both comparisons are strict: a meeting that ends exactly when the
      range starts, or starts exactly when it ends, is not in range. */
  lemma BackToBackNotInRange(m: Meeting, start: int, end: int)
    requires m.beginning + m.duration == start || m.beginning == end
    ensures !InRange(m, start, end)
  {
  }

  /** The student range query never reports an unclaimed meeting, nor one
      claimed by somebody else. */
  lemma StudentRangeOnlyOwnClaims(ms: Meetings, studentId: UserId, start: int, end: int, k: MeetingId)
    requires k in ms
    requires ms[k].student != Some(studentId)
    ensures k !in FindByStudentAndTimeRange(ms, studentId, start, end)
  {
  }

  /** A meeting of positive duration always lies in its own range, so the
      range queries over a meeting's own interval report that meeting. */
  lemma OwnIntervalInRange(m: Meeting)
    requires m.duration > 0
    ensures InRange(m, m.beginning, m.beginning + m.duration)
  {
  }
}
