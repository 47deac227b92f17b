/** The meeting service as it is implemented: plain repository calls with no
    role, ownership, time or conflict checks. An unknown meeting id is
    ignored (the implementation only logs it). */
module MeetingService {
  import opened Common
  import opened Entities
  import opened MeetingRepository

  /** `getAllTeacherMeetings`: the teacher's meetings, or an empty list. */
  function GetAllTeacherMeetings(db: Store, teacherId: UserId): (r: seq<MeetingId>)
    ensures StrictlyIncreasing(r)
    ensures forall k :: k in r <==> k in db.meetings && db.meetings[k].teacher == teacherId
  {
    FindAllByTeacherId(db.meetings, teacherId)
  }

  /** `getAllStudentMeetings`: the meetings the student holds, or an empty list. */
  function GetAllStudentMeetings(db: Store, studentId: UserId): (r: seq<MeetingId>)
    ensures StrictlyIncreasing(r)
    ensures forall k :: k in r <==> k in db.meetings && db.meetings[k].student == Some(studentId)
  {
    FindAllByStudentId(db.meetings, studentId)
  }

  /** `removeMeeting`: delete by id; an unknown id changes nothing. */
  function RemoveMeeting(db: Store, meetingId: MeetingId): (r: Store)
    ensures r.meetings.Keys == db.meetings.Keys - {meetingId}
    ensures forall k | k in r.meetings :: r.meetings[k] == db.meetings[k]
    ensures r == db.(meetings := r.meetings)
    ensures meetingId !in db.meetings ==> r == db
  {
    db.(meetings := db.meetings - {meetingId})
  }

  /** Whether `save` merges: the meeting carries the id of a stored row. */
  predicate Merges(db: Store, id: Option<MeetingId>)
  {
    id.Some? && id.value in db.meetings
  }

  /** `createMeeting`: `save` of the meeting as the client sent it, id
      included. A meeting whose id names a stored row is merged over that
      row; any other is inserted under the next value of the id sequence. */
  function CreateMeeting(db: Store, meeting: Meeting, id: Option<MeetingId>): (r: Store)
    ensures exists k | k in r.meetings :: r.meetings[k] == meeting
    ensures r == db.(meetings := r.meetings, nextMeetingId := r.nextMeetingId)
  {
    var k := if Merges(db, id) then id.value else db.nextMeetingId;
    var ms := db.meetings[k := meeting];
    assert ms[k] == meeting;
    if Merges(db, id) then db.(meetings := ms)
    else db.(meetings := ms, nextMeetingId := db.nextMeetingId + 1)
  }

  /** In a valid database a merge replaces exactly the named row and adds
      none, an insert adds exactly one fresh row, every other row is kept,
      and the database stays valid. */
  lemma CreateMeetingKeepsValid(db: Store, meeting: Meeting, id: Option<MeetingId>)
    requires Valid(db)
    ensures var r := CreateMeeting(db, meeting, id);
            Merges(db, id) ==>
              && r.meetings.Keys == db.meetings.Keys
              && r.meetings[id.value] == meeting
              && r.nextMeetingId == db.nextMeetingId
    ensures var r := CreateMeeting(db, meeting, id);
            !Merges(db, id) ==>
              && db.nextMeetingId !in db.meetings
              && r.meetings.Keys == db.meetings.Keys + {db.nextMeetingId}
              && r.meetings[db.nextMeetingId] == meeting
    ensures var r := CreateMeeting(db, meeting, id);
            forall k | k in db.meetings && !(Merges(db, id) && k == id.value) :: r.meetings[k] == db.meetings[k]
    ensures Valid(CreateMeeting(db, meeting, id))
  {
  }

  /** Two meetings occupy the same slot: same time, length, course and
      teacher, whoever holds them. */
  predicate SameSlot(a: Meeting, b: Meeting)
  {
    a.beginning == b.beginning && a.duration == b.duration && a.course == b.course && a.teacher == b.teacher
  }

  /** `removeStudentMeeting`: the meeting becomes unclaimed, whoever held it. */
  function RemoveStudentMeeting(db: Store, meetingId: MeetingId): (r: Store)
    ensures r.meetings.Keys == db.meetings.Keys
    ensures meetingId in db.meetings ==>
              && r.meetings[meetingId].student.None?
              && SameSlot(r.meetings[meetingId], db.meetings[meetingId])
    ensures forall k | k in db.meetings && k != meetingId :: r.meetings[k] == db.meetings[k]
    ensures meetingId !in db.meetings ==> r == db
    ensures r == db.(meetings := r.meetings)
  {
    if meetingId !in db.meetings then db
    else db.(meetings := db.meetings[meetingId := db.meetings[meetingId].(student := None)])
  }

  /** Releasing a meeting keeps a valid database valid and cannot create an
      overlap. */
  lemma RemoveStudentMeetingKeepsInvariants(db: Store, meetingId: MeetingId)
    ensures Valid(db) ==> Valid(RemoveStudentMeeting(db, meetingId))
    ensures NotDoubleBooked(db.meetings) ==> NotDoubleBooked(RemoveStudentMeeting(db, meetingId).meetings)
  {
    var ms' := RemoveStudentMeeting(db, meetingId).meetings;
    if NotDoubleBooked(db.meetings) {
      forall a, b | a in ms' && b in ms' && a != b && ms'[a].student.Some? && ms'[a].student == ms'[b].student
        ensures !Conflict(ms'[a], ms'[b])
      {
        assert ms'[a] == db.meetings[a] && ms'[b] == db.meetings[b];
      }
    }
  }

  /** `listMeetingsCourse`: the course's unclaimed meetings, possibly none. */
  function ListMeetingsCourse(db: Store, courseId: CourseId): (r: seq<MeetingId>)
    ensures StrictlyIncreasing(r)
    ensures forall k :: k in r <==> k in db.meetings && db.meetings[k].course == courseId && db.meetings[k].student.None?
    ensures (forall k | k in db.meetings :: db.meetings[k].course != courseId || db.meetings[k].student.Some?) ==> r == []
  {
    FindAllByCourseIdAndStudentIsNull(db.meetings, courseId)
  }

  /** The loop body of `removeStudentFromCourseMeetings`, over the ids found. */
  function ReleaseEach(ms: Meetings, ids: seq<MeetingId>): (r: Meetings)
    ensures r.Keys == ms.Keys
  {
    if ids == [] then ms
    else if ids[0] in ms then ReleaseEach(ms[ids[0] := ms[ids[0]].(student := None)], ids[1..])
    else ReleaseEach(ms, ids[1..])
  }

  /** `removeStudentFromCourseMeetings`: every meeting of the course held by
      the student is loaded, released and saved one at a time. */
  function RemoveStudentFromCourseMeetings(db: Store, courseId: CourseId, studentId: UserId): (r: Store)
    ensures r.meetings.Keys == db.meetings.Keys
    ensures r == db.(meetings := r.meetings)
  {
    db.(meetings := ReleaseEach(db.meetings, FindAllByCourseIdAndStudentId(db.meetings, courseId, studentId)))
  }

  lemma {:induction false} ReleaseEachReaches(ms: Meetings, ids: seq<MeetingId>, target: Meetings)
    requires StrictlyIncreasing(ids)
    requires ms.Keys == target.Keys
    requires forall k | k in ids :: k in ms && target[k] == ms[k].(student := None)
    requires forall k | k in ms && k !in ids :: target[k] == ms[k]
    ensures ReleaseEach(ms, ids) == target
    decreases |ids|
  {
    if ids == [] {
    } else {
      var k := ids[0];
      var ms' := ms[k := ms[k].(student := None)];
      assert k !in ids[1..] by {
        forall i | 0 <= i < |ids[1..]|
          ensures ids[1..][i] != k
        {
          assert ids[1..][i] == ids[i + 1];
        }
      }
      forall j | j in ids[1..]
        ensures j in ms' && target[j] == ms'[j].(student := None)
      {
        assert j in ids;
      }
      forall j | j in ms' && j !in ids[1..]
        ensures target[j] == ms'[j]
      {
        if j != k {
          assert j !in ids;
        }
      }
      assert StrictlyIncreasing(ids[1..]) by {
        forall i, j | 0 <= i < j < |ids[1..]|
          ensures ids[1..][i] < ids[1..][j]
        {
          assert ids[1..][i] == ids[i + 1] && ids[1..][j] == ids[j + 1];
        }
      }
      ReleaseEachReaches(ms', ids[1..], target);
    }
  }

  /** The row-by-row loop has the same effect as the repository's single
      bulk update `setStudentToNullForCourseAndStudent`. */
  lemma RemoveStudentFromCourseMeetingsIsBulkUpdate(db: Store, courseId: CourseId, studentId: UserId)
    ensures RemoveStudentFromCourseMeetings(db, courseId, studentId).meetings
            == SetStudentToNullForCourseAndStudent(db.meetings, courseId, studentId)
  {
    var ids := FindAllByCourseIdAndStudentId(db.meetings, courseId, studentId);
    ReleaseEachReaches(db.meetings, ids, SetStudentToNullForCourseAndStudent(db.meetings, courseId, studentId));
  }

  /** `addStudentToMeeting`: the student is written over whoever held the
      meeting, with no role, time or conflict check. */
  function AddStudentToMeeting(db: Store, meetingId: MeetingId, student: User): (r: Store)
    ensures r.meetings.Keys == db.meetings.Keys
    ensures meetingId in db.meetings ==>
              && r.meetings[meetingId].student == Some(student.id)
              && SameSlot(r.meetings[meetingId], db.meetings[meetingId])
    ensures forall k | k in db.meetings && k != meetingId :: r.meetings[k] == db.meetings[k]
    ensures meetingId !in db.meetings ==> r == db
    ensures r == db.(meetings := r.meetings)
  {
    if meetingId !in db.meetings then db
    else db.(meetings := db.meetings[meetingId := db.meetings[meetingId].(student := Some(student.id))])
  }

  /** Because `addStudentToMeeting` checks nothing, it can double-book a
      student: two overlapping meetings end up held by the same student. */
  lemma AddStudentToMeetingCanDoubleBook()
    ensures var s := User(7, None, "A", "B", "a@b.cc", None, "", STUDENT, None);
            var db := Store(map[], map[], map[1 := Meeting(60, 60, 1, 2, Some(7)), 2 := Meeting(75, 30, 1, 3, None)],
                            map[], map[], 0, 3, 0);
            && NotDoubleBooked(db.meetings)
            && !NotDoubleBooked(AddStudentToMeeting(db, 2, s).meetings)
  {
    var s := User(7, None, "A", "B", "a@b.cc", None, "", STUDENT, None);
    var db := Store(map[], map[], map[1 := Meeting(60, 60, 1, 2, Some(7)), 2 := Meeting(75, 30, 1, 3, None)],
                    map[], map[], 0, 3, 0);
    var ms := AddStudentToMeeting(db, 2, s).meetings;
    assert ms[1].student == ms[2].student && Conflict(ms[1], ms[2]);
  }

  /** `removeStudentMeeting` undoes `addStudentToMeeting` on an unclaimed
      meeting, and `addStudentToMeeting` undoes `removeStudentMeeting` on a
      meeting the student held; on an unknown id both change nothing. */
  lemma AddRemoveInverse(db: Store, meetingId: MeetingId, student: User)
    ensures meetingId in db.meetings && db.meetings[meetingId].student.None? ==>
              RemoveStudentMeeting(AddStudentToMeeting(db, meetingId, student), meetingId) == db
    ensures meetingId in db.meetings && db.meetings[meetingId].student == Some(student.id) ==>
              AddStudentToMeeting(RemoveStudentMeeting(db, meetingId), meetingId, student) == db
    ensures meetingId !in db.meetings ==>
              AddStudentToMeeting(db, meetingId, student) == db && RemoveStudentMeeting(db, meetingId) == db
  {
    if meetingId in db.meetings {
      var m := db.meetings[meetingId];
      if m.student.None? {
        assert db.meetings[meetingId := m.(student := Some(student.id))][meetingId := m] == db.meetings;
      } else if m.student == Some(student.id) {
        assert db.meetings[meetingId := m.(student := None)][meetingId := m] == db.meetings;
      }
    }
  }

  /** No other meeting held by the student overlaps meeting `meetingId`. */
  predicate ClashFree(ms: Meetings, meetingId: MeetingId, studentId: UserId)
    requires meetingId in ms
  {
    forall k | k in ms && k != meetingId && ms[k].student == Some(studentId) :: !Conflict(ms[k], ms[meetingId])
  }

  /** Without a check of its own, `addStudentToMeeting` keeps schedules free
      of overlaps exactly when the student holds no other meeting that
      overlaps the one claimed. */
  lemma AddStudentToMeetingKeepsNotDoubleBooked(db: Store, meetingId: MeetingId, student: User)
    requires NotDoubleBooked(db.meetings) && meetingId in db.meetings
    ensures NotDoubleBooked(AddStudentToMeeting(db, meetingId, student).meetings)
            <==> ClashFree(db.meetings, meetingId, student.id)
  {
    var ms := db.meetings;
    var ms' := AddStudentToMeeting(db, meetingId, student).meetings;
    if ClashFree(ms, meetingId, student.id) {
      forall a, b | a in ms' && b in ms' && a != b && ms'[a].student.Some? && ms'[a].student == ms'[b].student
        ensures !Conflict(ms'[a], ms'[b])
      {
        if a == meetingId {
          assert !Conflict(ms[b], ms[meetingId]);
          ConflictSymmetric(ms'[a], ms'[b]);
        } else if b == meetingId {
          assert !Conflict(ms[a], ms[meetingId]);
        } else {
          assert ms'[a] == ms[a] && ms'[b] == ms[b];
        }
      }
    } else {
      var k :| k in ms && k != meetingId && ms[k].student == Some(student.id) && Conflict(ms[k], ms[meetingId]);
      assert ms'[k] == ms[k] && ms'[k].student == ms'[meetingId].student && Conflict(ms'[k], ms'[meetingId]);
    }
  }
}
