/** The guarded meeting operations that the service's unit tests describe:
    claiming with a time-conflict check, creating with a past-time check,
    vacating by the holder only, role-checked listings and a removal that
    requires an existing meeting and a teacher. They are not the implementation's behaviour
    (see MeetingService); they exist only as expectations, and only the
    checks those expectations name are modelled here. The conflict check
    reuses the repository's student range query. */
module GuardedMeetingService {
  import opened Common
  import opened Entities
  import opened MeetingRepository
  import MeetingService

  const MeetingMissing := Custom("Meeting does not exist.", NOT_FOUND)
  const StudentBusy := Custom("Student has another meeting at this time.", CONFLICT)
  const MeetingNull := Custom("Meeting is null.", BAD_REQUEST)
  const MeetingInPast := Custom("Cannot schedule meeting in the past.", BAD_REQUEST)
  const NotHolder := Custom("User was not assigned to this meeting.", BAD_REQUEST)
  const OnlyTeacherListing := Custom("Only teacher can use this endpoint: /teacherMeetings.", BAD_REQUEST)
  const OnlyStudentListing := Custom("Only student can use this endpoint: /studentMeetings.", BAD_REQUEST)
  const OnlyStudentCourseListing := Custom("Only student can use this endpoint: /courseMeetings/{courseId}.", BAD_REQUEST)
  const OnlyTeacherDeletesMeeting := Custom("Only teacher can delete meeting.", BAD_REQUEST)

  /** The student's meetings that overlap the interval of `m`. */
  function Clashes(ms: Meetings, studentId: UserId, m: Meeting): seq<MeetingId>
  {
    FindByStudentAndTimeRange(ms, studentId, m.beginning, m.beginning + m.duration)
  }

  /** Guarded `addStudentToMeeting(meetingId, user)`. */
  function ClaimMeeting(db: Store, meetingId: MeetingId, user: Option<User>): (r: Result<Store>)
    ensures meetingId !in db.meetings ==> r == Err(MeetingMissing)
    ensures meetingId in db.meetings && user.None? ==> r == Err(UserMissing)
    ensures (meetingId in db.meetings && user.Some?
             && exists k | k in db.meetings :: db.meetings[k].student == Some(user.value.id)
                                              && Conflict(db.meetings[k], db.meetings[meetingId])) ==>
              r == Err(StudentBusy)
    ensures r.Ok? <==> meetingId in db.meetings && user.Some?
                       && Clashes(db.meetings, user.value.id, db.meetings[meetingId]) == []
    ensures r.Ok? ==>
              && meetingId in db.meetings && user.Some?
              && r.value == db.(meetings := db.meetings[meetingId := db.meetings[meetingId].(student := Some(user.value.id))])
  {
    if meetingId !in db.meetings then Err(MeetingMissing)
    else match user
      case None => Err(UserMissing)
      case Some(u) =>
        var m := db.meetings[meetingId];
        if Clashes(db.meetings, u.id, m) != [] then Err(StudentBusy)
        else Ok(db.(meetings := db.meetings[meetingId := m.(student := Some(u.id))]))
  }

  /** Guarded `createMeeting(meeting, user)`: a meeting that begins at `now`
      or later is saved under the next id. */
  function CreateMeeting(db: Store, meeting: Option<Meeting>, now: int): (r: Result<Store>)
    ensures meeting.None? ==> r == Err(MeetingNull)
    ensures meeting.Some? && meeting.value.beginning < now ==> r == Err(MeetingInPast)
    ensures r.Ok? <==> meeting.Some? && meeting.value.beginning >= now
    ensures r.Ok? ==> r.value == db.(meetings := db.meetings[db.nextMeetingId := meeting.value],
                                     nextMeetingId := db.nextMeetingId + 1)
  {
    match meeting
    case None => Err(MeetingNull)
    case Some(m) =>
      if m.beginning < now then Err(MeetingInPast)
      else Ok(db.(meetings := db.meetings[db.nextMeetingId := m], nextMeetingId := db.nextMeetingId + 1))
  }

  /** A created meeting lands under a fresh id, so a valid database stays
      valid; a new meeting nobody holds yet cannot double-book anyone. */
  lemma CreateMeetingKeepsInvariants(db: Store, meeting: Option<Meeting>, now: int)
    requires Valid(db)
    requires CreateMeeting(db, meeting, now).Ok?
    ensures db.nextMeetingId !in db.meetings
    ensures CreateMeeting(db, meeting, now).value.meetings.Keys == db.meetings.Keys + {db.nextMeetingId}
    ensures Valid(CreateMeeting(db, meeting, now).value)
    ensures meeting.value.student.None? && NotDoubleBooked(db.meetings) ==>
              NotDoubleBooked(CreateMeeting(db, meeting, now).value.meetings)
  {
    var ms' := CreateMeeting(db, meeting, now).value.meetings;
    if meeting.value.student.None? && NotDoubleBooked(db.meetings) {
      forall a, b | a in ms' && b in ms' && a != b && ms'[a].student.Some? && ms'[a].student == ms'[b].student
        ensures !Conflict(ms'[a], ms'[b])
      {
        assert a != db.nextMeetingId && b != db.nextMeetingId;
        assert ms'[a] == db.meetings[a] && ms'[b] == db.meetings[b];
      }
    }
  }

  /** Guarded `removeStudentMeeting(meetingId, user)`: only the holder may
      give the meeting up. */
  function VacateMeeting(db: Store, meetingId: MeetingId, user: Option<User>): (r: Result<Store>)
    ensures meetingId !in db.meetings ==> r == Err(MeetingMissing)
    ensures meetingId in db.meetings && user.None? ==> r == Err(UserMissing)
    ensures r.Ok? <==> meetingId in db.meetings && user.Some? && db.meetings[meetingId].student == Some(user.value.id)
    ensures (meetingId in db.meetings && user.Some? && db.meetings[meetingId].student != Some(user.value.id)) ==>
              r == Err(NotHolder)
    ensures r.Ok? ==> r.value == db.(meetings := db.meetings[meetingId := db.meetings[meetingId].(student := None)])
  {
    if meetingId !in db.meetings then Err(MeetingMissing)
    else match user
      case None => Err(UserMissing)
      case Some(u) =>
        var m := db.meetings[meetingId];
        if m.student != Some(u.id) then Err(NotHolder)
        else Ok(db.(meetings := db.meetings[meetingId := m.(student := None)]))
  }

  /** The conflict check keeps every student's schedule free of overlaps. */
  lemma {:induction false} ClaimKeepsNotDoubleBooked(db: Store, meetingId: MeetingId, user: Option<User>)
    requires NotDoubleBooked(db.meetings)
    requires ClaimMeeting(db, meetingId, user).Ok?
    ensures NotDoubleBooked(ClaimMeeting(db, meetingId, user).value.meetings)
  {
    var ms := db.meetings;
    var u := user.value;
    var ms' := ClaimMeeting(db, meetingId, user).value.meetings;
    forall a, b | a in ms' && b in ms' && a != b && ms'[a].student.Some? && ms'[a].student == ms'[b].student
      ensures !Conflict(ms'[a], ms'[b])
    {
      if a == meetingId {
        assert b !in Clashes(ms, u.id, ms[meetingId]);
        ConflictSymmetric(ms'[a], ms'[b]);
      } else if b == meetingId {
        assert a !in Clashes(ms, u.id, ms[meetingId]);
      } else {
        assert ms'[a] == ms[a] && ms'[b] == ms[b];
      }
    }
  }

  /** Vacating never creates an overlap. */
  lemma VacateKeepsNotDoubleBooked(db: Store, meetingId: MeetingId, user: Option<User>)
    requires NotDoubleBooked(db.meetings)
    requires VacateMeeting(db, meetingId, user).Ok?
    ensures NotDoubleBooked(VacateMeeting(db, meetingId, user).value.meetings)
  {
    var ms' := VacateMeeting(db, meetingId, user).value.meetings;
    forall a, b | a in ms' && b in ms' && a != b && ms'[a].student.Some? && ms'[a].student == ms'[b].student
      ensures !Conflict(ms'[a], ms'[b])
    {
      assert ms'[a] == db.meetings[a] && ms'[b] == db.meetings[b];
    }
  }

  /** A student who holds a meeting of positive length cannot claim it
      again: the range query over its own interval reports it. */
  lemma ClaimTwiceRefused(db: Store, meetingId: MeetingId, u: User)
    requires meetingId in db.meetings
    requires db.meetings[meetingId].student == Some(u.id) && db.meetings[meetingId].duration > 0
    ensures ClaimMeeting(db, meetingId, Some(u)) == Err(StudentBusy)
  {
    assert meetingId in Clashes(db.meetings, u.id, db.meetings[meetingId]);
  }

  /** Claiming an unclaimed meeting and then vacating it restores the database. */
  lemma ClaimThenVacateRestores(db: Store, meetingId: MeetingId, u: User)
    requires meetingId in db.meetings && db.meetings[meetingId].student.None?
    requires ClaimMeeting(db, meetingId, Some(u)).Ok?
    ensures VacateMeeting(ClaimMeeting(db, meetingId, Some(u)).value, meetingId, Some(u)) == Ok(db)
  {
    var db1 := ClaimMeeting(db, meetingId, Some(u)).value;
    assert db1.meetings[meetingId := db1.meetings[meetingId].(student := None)] == db.meetings;
  }

  /** Guarded `getTeacherMeetings(user)`: a teacher's own meetings. */
  function GetTeacherMeetings(db: Store, user: Option<User>): (r: Result<seq<MeetingId>>)
    ensures user.None? ==> r == Err(UserMissing)
    ensures user.Some? && user.value.role != TEACHER ==> r == Err(OnlyTeacherListing)
    ensures r.Ok? <==> user.Some? && user.value.role == TEACHER
    ensures r.Ok? ==> forall k :: k in r.value <==> k in db.meetings && db.meetings[k].teacher == user.value.id
  {
    match user
    case None => Err(UserMissing)
    case Some(u) => if u.role != TEACHER then Err(OnlyTeacherListing) else Ok(FindAllByTeacherId(db.meetings, u.id))
  }

  /** Guarded `getStudentMeetings(user)`: the meetings a student holds. */
  function GetStudentMeetings(db: Store, user: Option<User>): (r: Result<seq<MeetingId>>)
    ensures user.None? ==> r == Err(UserMissing)
    ensures user.Some? && user.value.role != STUDENT ==> r == Err(OnlyStudentListing)
    ensures r.Ok? <==> user.Some? && user.value.role == STUDENT
    ensures r.Ok? ==> forall k :: k in r.value <==> k in db.meetings && db.meetings[k].student == Some(user.value.id)
  {
    match user
    case None => Err(UserMissing)
    case Some(u) => if u.role != STUDENT then Err(OnlyStudentListing) else Ok(FindAllByStudentId(db.meetings, u.id))
  }

  /** Guarded `getCourseMeeting(courseId, user)`: the unclaimed meetings of
      a course, for a student. */
  function GetCourseMeeting(db: Store, courseId: CourseId, user: Option<User>): (r: Result<seq<MeetingId>>)
    ensures user.None? ==> r == Err(UserMissing)
    ensures user.Some? && user.value.role != STUDENT ==> r == Err(OnlyStudentCourseListing)
    ensures r.Ok? <==> user.Some? && user.value.role == STUDENT
    ensures r.Ok? ==> forall k :: k in r.value <==> k in db.meetings && db.meetings[k].course == courseId
                                                     && db.meetings[k].student.None?
  {
    match user
    case None => Err(UserMissing)
    case Some(u) =>
      if u.role != STUDENT then Err(OnlyStudentCourseListing)
      else Ok(FindAllByCourseIdAndStudentIsNull(db.meetings, courseId))
  }

  /** Guarded `removeMeeting(meetingId, user)`: the meeting must exist, and
      then the caller must be a teacher. */
  function RemoveMeeting(db: Store, meetingId: MeetingId, user: User): (r: Result<Store>)
    ensures meetingId !in db.meetings ==> r == Err(MeetingMissing)
    ensures meetingId in db.meetings && user.role != TEACHER ==> r == Err(OnlyTeacherDeletesMeeting)
    ensures r.Ok? <==> meetingId in db.meetings && user.role == TEACHER
    ensures r.Ok? ==>
              && r.value.meetings.Keys == db.meetings.Keys - {meetingId}
              && (forall k | k in r.value.meetings :: r.value.meetings[k] == db.meetings[k])
              && r.value == db.(meetings := r.value.meetings)
  {
    if meetingId !in db.meetings then Err(MeetingMissing)
    else if user.role != TEACHER then Err(OnlyTeacherDeletesMeeting)
    else Ok(db.(meetings := db.meetings - {meetingId}))
  }

  /** Once its checks pass, each guarded operation does exactly what the
      implementation does: the guards only refuse, they never change a
      result. */
  lemma GuardsOnlyRefuse(db: Store, meetingId: MeetingId, courseId: CourseId, user: Option<User>, u: User)
    ensures GetTeacherMeetings(db, user).Ok? ==>
              GetTeacherMeetings(db, user).value == MeetingService.GetAllTeacherMeetings(db, user.value.id)
    ensures GetStudentMeetings(db, user).Ok? ==>
              GetStudentMeetings(db, user).value == MeetingService.GetAllStudentMeetings(db, user.value.id)
    ensures GetCourseMeeting(db, courseId, user).Ok? ==>
              GetCourseMeeting(db, courseId, user).value == MeetingService.ListMeetingsCourse(db, courseId)
    ensures RemoveMeeting(db, meetingId, u).Ok? ==>
              RemoveMeeting(db, meetingId, u).value == MeetingService.RemoveMeeting(db, meetingId)
    ensures ClaimMeeting(db, meetingId, user).Ok? ==>
              ClaimMeeting(db, meetingId, user).value == MeetingService.AddStudentToMeeting(db, meetingId, user.value)
  {
  }

  /** The booking scenario: one meeting from minute 60 to 120 held by
      student 7, and two unclaimed meetings of the same course, from 75 to
      105 and from 120 to 150. */
  const Booker := User(7, None, "A", "B", "a@b.cc", None, "", STUDENT, None)
  const BookingMeetings: Meetings := map[1 := Meeting(60, 60, 1, 2, Some(7)),
                                         2 := Meeting(75, 30, 1, 3, None),
                                         3 := Meeting(120, 30, 1, 3, None)]
  const Booking := Store(map[], map[], BookingMeetings, map[], map[], 0, 4, 0)

  /** A claim of the meeting from 75 to 105 is refused: it overlaps the one
      the student holds. */
  lemma OverlappingClaimRefused()
    ensures ClaimMeeting(Booking, 2, Some(Booker)) == Err(StudentBusy)
  {
    assert InRange(BookingMeetings[1], 75, 105);
    assert 1 in Clashes(BookingMeetings, 7, BookingMeetings[2]);
  }

  /** A claim of the meeting starting at 120, when the held one ends, goes
      through. */
  lemma BackToBackClaimAccepted()
    ensures ClaimMeeting(Booking, 3, Some(Booker)).Ok?
  {
    var ms := BookingMeetings;
    BackToBackNotInRange(ms[1], 120, 150);
    var c := Clashes(ms, 7, ms[3]);
    assert forall k | k in c :: k == 1;
    assert 1 !in c;
  }
}
