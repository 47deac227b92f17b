# Learntisimo reservation core in Dafny

Learntisimo is a tutoring-reservation system. Its Spring backend keeps users, courses, meeting slots and teaching requests:
- Students enrol in courses and claim meetings.
- Teachers create courses and meetings.
- An administrator decides requests from students who want to become teachers. Approving or rejecting one cascades through enrolments and courses.

A Blazor frontend checks the account and meeting forms before they reach the backend. It uses FluentValidation validators and two custom data-annotation attributes, `PasswordComplexity` and `FutureDateTimeOnly`.

This project models that core as pure functions over an immutable database record and proves properties of it.

Modules:
- `Common` holds the optional value, the error (a message with its HTTP status, or a constraint violation raised on save) and the ascending enumeration of ids. That enumeration stands in for the order of query results.
- `Entities` holds the entities, the whole `Store` and its validity invariant `Valid`. The invariant covers:
  - rows keyed by their own id;
  - the phone pattern and the unique email column of `User`;
  - id sequences ahead of every key;
  - duplicate-free rosters;
  - at most one teaching request per user.
- `MeetingRepository` holds the finders, the two native time-range queries and the two bulk updates.
- `UserService`, `CourseService`, `TeachingService` and `MeetingService` follow the four service implementations, with the same checks, in the same order and with the same messages.
- `GuardedMeetingService` holds the guarded meeting operations that the meeting service's unit tests (MeetingServiceTest.java) expect: claiming, creating, vacating, the three listings and removal. The implementation does not have them.
- `CharClasses`, `FormPatterns`, `ValidationAttributes` and `FormValidators` model the frontend. Each regular expression is written out as a predicate. Each validator returns its list of failures.

The email and phone patterns are modelled under two readings (`FormPatterns.Reading`):
- `AsWritten` matches them as .NET evaluates them. Here `\d` is a decimal digit of ASCII or of five further scripts (Arabic-Indic, Extended Arabic-Indic, Devanagari, Bengali and fullwidth), and `$` also matches just before a final newline.
- `Intended` matches them as evidently meant: ASCII digits, with `$` at the end of the input.

The form validators take the reading as a parameter. With `AsWritten` they model the program as it runs; the findings below compare the two.

Time is whole minutes. The wall clock (`LocalDateTime.now()`, `DateTime.Now`) is a parameter `now`. The password encoder is a parameter of type `UserService.PasswordEncoder`.

A decision on a teaching request returns an `Outcome`: the state together with the error that interrupted it, if any. The status is saved before the cascade runs, so a failing cascade still leaves the new status behind.

Some behaviours of the code are easy to mistake; the model follows the code:
- `removeCourse` checks only that the caller is a teacher. It never compares the caller with the course's teacher (`CourseService.RemoveCourseIgnoresOwner`).
- `saveCourse` likewise never compares the caller with the teacher of a course whose id it is given. Saving over a stored id makes the caller that course's teacher (`CourseService.SaveCourseTakesOver`).
- Re-deciding a request fails with BAD_REQUEST, not CONFLICT. It fails only when the new decision equals the stored one. An approved request can still be rejected, and the other way round (`TeachingService.OtherDecisionNotBlocked`).
- A duplicate enrolment fails with BAD_REQUEST. A duplicate teaching request fails with CONFLICT.
- The meeting service as implemented has no role, time, past-date or conflict check:
  - `createMeeting` runs no check of its own before the save. A meeting carrying the id of a stored row overwrites that row;
  - `addStudentToMeeting` overwrites the holder and can double-book a student (`MeetingService.AddStudentToMeetingCanDoubleBook`);
  - an unknown meeting id is ignored.

  The guarded behaviour appears only in the unit tests. It is modelled separately in `GuardedMeetingService`.
- No check keeps a teacher's meetings from overlapping, and no check keeps a meeting's duration positive.
- The password-change message is kept as written: "New password is qual to old password." (UserServiceImpl.java line 152). The source's own tests expect "New password is equal to old password." (UserServiceTest.java line 352, UserControllerIntegrationTests.java line 550), so they disagree with the code.

## Model

| member | source | states |
|---|---|---|
| Common.Ascending | src/main/java/com/asos/reservationSystem/services/impl/CourseServiceImpl.java:29-33 | Lists each id of a finite set exactly once, in strictly increasing order, and nothing else. This is the order in which the model returns query results. |
| Entities.PhonePatternShape | src/main/java/com/asos/reservationSystem/domain/entities/User.java:41 | The phone pattern `^\+\d{1,3}\d{1,15}$`, tried over every split into country code and number, accepts exactly '+' followed by 2 to 18 ASCII digits. |
| Entities.LocalPhoneRefused | src/main/java/com/asos/reservationSystem/domain/entities/User.java:41 | The backend's phone pattern refuses a number written without the leading '+', such as "0949111111". |
| Entities.UsernameIdentifiesUser | src/main/java/com/asos/reservationSystem/domain/entities/User.java:37-39 | In a valid database, two stored users with the same username (their email, lines 61-64) are the same row. This holds because the email column is unique. |
| MeetingRepository.FindByTeacherAndTimeRange | src/main/java/com/asos/reservationSystem/repositories/MeetingRepository.java:25-29 | Returns exactly the teacher's meetings that begin before `end` and end after `start`, in ascending order. |
| MeetingRepository.FindByStudentAndTimeRange | src/main/java/com/asos/reservationSystem/repositories/MeetingRepository.java:31-35 | Returns exactly the meetings the student holds that begin before `end` and end after `start`, in ascending order. |
| MeetingRepository.FindAllByCourseIdAndStudentIsNull | src/main/java/com/asos/reservationSystem/repositories/MeetingRepository.java:23 | Returns exactly the unclaimed meetings of the course. |
| MeetingRepository.FindAllByCourseIdAndStudentId | src/main/java/com/asos/reservationSystem/services/impl/MeetingServiceImpl.java:79 | Returns exactly the meetings of the course held by the student. |
| MeetingRepository.FindByCourse | src/main/java/com/asos/reservationSystem/repositories/MeetingRepository.java:17 | Returns exactly the meetings of the course. |
| MeetingRepository.FindAllByTeacherId | src/main/java/com/asos/reservationSystem/services/impl/MeetingServiceImpl.java:24 | Returns exactly the meetings the teacher gives. |
| MeetingRepository.FindAllByStudentId | src/main/java/com/asos/reservationSystem/services/impl/MeetingServiceImpl.java:35 | Returns exactly the meetings the student holds. |
| MeetingRepository.SetStudentToNullForCourseAndStudent | src/main/java/com/asos/reservationSystem/repositories/MeetingRepository.java:37-40 | Keeps every row. The meetings of that course held by that student become unclaimed, and every other row is unchanged. |
| MeetingRepository.DeletePastMeetingsWithNullStudent | src/main/java/com/asos/reservationSystem/repositories/MeetingRepository.java:42-45 | Deletes exactly the unclaimed meetings of the course that began before `now`. The rows that remain are unchanged. |
| MeetingRepository.DeleteAll | src/main/java/com/asos/reservationSystem/services/impl/CourseServiceImpl.java:152-153 | Deletes exactly the listed rows and leaves the others unchanged. |
| MeetingRepository.ConflictSymmetric | src/main/java/com/asos/reservationSystem/repositories/MeetingRepository.java:31-35 | The range condition, applied to two meetings' intervals, does not depend on their order. |
| MeetingRepository.BackToBackNotInRange | src/main/java/com/asos/reservationSystem/repositories/MeetingRepository.java:25-35 | Both comparisons are strict. A meeting that ends exactly at `start`, or begins exactly at `end`, is not in range. |
| MeetingRepository.StudentRangeOnlyOwnClaims | src/main/java/com/asos/reservationSystem/repositories/MeetingRepository.java:31-35 | The student range query never reports an unclaimed meeting or one held by another student. |
| MeetingRepository.OwnIntervalInRange | src/main/java/com/asos/reservationSystem/repositories/MeetingRepository.java:25-35 | A meeting of positive duration lies in the range of its own interval. |
| UserService.SaveUser | src/main/java/com/asos/reservationSystem/domain/entities/User.java:37-42 | Saving succeeds exactly when the phone, if present, matches the pattern and no other user has the email. Otherwise it names the violated column, and a successful save writes the row under its id. |
| UserService.SaveUserPreservesValid | src/main/java/com/asos/reservationSystem/domain/entities/User.java:37-42 | A successful save keeps the database valid. |
| UserService.RevokeAllUserTokens | src/main/java/com/asos/reservationSystem/services/impl/UserServiceImpl.java:137 | After revocation none of the user's tokens is live. Other users' tokens and all token owners are unchanged. |
| UserService.FindUserByEmail | src/main/java/com/asos/reservationSystem/services/impl/UserServiceImpl.java:92 | Finds a user with that email, or reports that none exists. |
| UserService.SetRole | src/main/java/com/asos/reservationSystem/services/impl/UserServiceImpl.java:91-102 | If no stored user has the given user's email, the result is "User does not exist." (NOT_FOUND). Otherwise the stored user with that email gets the role. |
| UserService.SetRoleChangesOnlyRole | src/main/java/com/asos/reservationSystem/services/impl/UserServiceImpl.java:91-102 | In a valid database `setRole` succeeds exactly when the email is stored. It changes that user's role only, touches no other table and keeps the database valid. |
| UserService.UpdateProfile | src/main/java/com/asos/reservationSystem/services/impl/UserServiceImpl.java:104-120 | An empty user gives "User does not exist.". The update succeeds exactly when the user is present, the new phone, if any, matches the pattern, and the user's email is not held by another row; a phone that breaks the pattern is refused on save. On success the five profile fields are copied from the data, and id, email, password and role are kept. |
| UserService.UpdateProfileSucceeds | src/main/java/com/asos/reservationSystem/services/impl/UserServiceImpl.java:104-120 | For a stored user of a valid database, the update succeeds exactly when the new phone, if any, matches the pattern, and then the database stays valid. |
| UserService.UpdateEmail | src/main/java/com/asos/reservationSystem/services/impl/UserServiceImpl.java:122-143 | Each error is returned in the source's order: missing user, same email, wrong old email, wrong password. A new email that another user holds is refused on save by the unique column. The change succeeds exactly when none of these applies and the stored row meets its constraints; then the email is changed and every token of the user is revoked. |
| UserService.UpdateEmailSucceeds | src/main/java/com/asos/reservationSystem/services/impl/UserServiceImpl.java:122-143 | For a stored user of a valid database, with a new email and the right old email and password, the change succeeds exactly when no other user has the new email, and then the database stays valid. |
| UserService.UpdateEmailRoundTrip | src/main/java/com/asos/reservationSystem/services/impl/UserServiceImpl.java:122-143 | Changing the email and changing it back gives the user table back. Only the revoked tokens remain. |
| UserService.UpdatePassword | src/main/java/com/asos/reservationSystem/services/impl/UserServiceImpl.java:145-162 | The raw new and old strings are compared before the stored hash. Each error is returned in order. On success the encoded new password is stored and the user's tokens are revoked. |
| UserService.UpdatePasswordSucceeds | src/main/java/com/asos/reservationSystem/services/impl/UserServiceImpl.java:145-162 | For a stored user of a valid database, a matching old password and a different new one always succeed and keep the database valid. |
| CourseService.GetAll | src/main/java/com/asos/reservationSystem/services/impl/CourseServiceImpl.java:29-33 | Returns every course exactly once. |
| CourseService.Without | src/main/java/com/asos/reservationSystem/services/impl/CourseServiceImpl.java:87 | `removeIf` keeps exactly the roster entries other than the student and never lengthens the roster. |
| CourseService.WithoutKeepsNoDuplicates | src/main/java/com/asos/reservationSystem/services/impl/CourseServiceImpl.java:87 | Removing a student keeps a duplicate-free roster duplicate-free. |
| CourseService.WithoutAppended | src/main/java/com/asos/reservationSystem/services/impl/CourseServiceImpl.java:52 | Removing a student who was just appended gives back the original roster. This is the inverse of enrolment. |
| CourseService.AssignToCourse | src/main/java/com/asos/reservationSystem/services/impl/CourseServiceImpl.java:36-61 | Succeeds exactly for a student not yet on the roster of an existing course. Otherwise it returns the first failing check's error, in the source's order. On success the student is appended to the roster and nothing else changes. |
| CourseService.AssignKeepsValid | src/main/java/com/asos/reservationSystem/services/impl/CourseServiceImpl.java:51-54 | Enrolment keeps the database valid, and the student then appears exactly once on the roster. |
| CourseService.AssignTwiceRefused | src/main/java/com/asos/reservationSystem/services/impl/CourseServiceImpl.java:55-59 | Enrolling the same student again is refused with "User has already been assigned to this course.". |
| CourseService.DeleteFromCourse | src/main/java/com/asos/reservationSystem/services/impl/CourseServiceImpl.java:63-91 | Succeeds exactly for a student on the roster of an existing course, and otherwise returns the first failing check's error. On success the student leaves the roster, the two bulk meeting updates run, and users, requests, tokens and sequences are unchanged. |
| CourseService.LeaveCourseMeetingsEffects | src/main/java/com/asos/reservationSystem/services/impl/CourseServiceImpl.java:85-86 | Effects on the meetings when a student leaves a course:<br>• The leaver's meetings in the course are released; the past ones among them are then deleted.<br>• Every past unclaimed meeting of the course is deleted, not only the leaver's.<br>• Other students' meetings and other courses' meetings are untouched. |
| CourseService.DeleteFromCourseReleasesStudent | src/main/java/com/asos/reservationSystem/services/impl/CourseServiceImpl.java:84-89 | After leaving, the student is neither on the roster nor the holder of any meeting of that course. |
| CourseService.DeleteFromCourseKeepsValid | src/main/java/com/asos/reservationSystem/services/impl/CourseServiceImpl.java:84-89 | Leaving a course keeps the database valid. |
| CourseService.AssignThenDeleteRestoresCourses | src/main/java/com/asos/reservationSystem/services/impl/CourseServiceImpl.java:36-91 | Enrolling and then leaving always succeeds and gives the course table back unchanged. |
| CourseService.GetTeacherCourses | src/main/java/com/asos/reservationSystem/services/impl/CourseServiceImpl.java:93-104 | Refuses an empty user and any non-teacher. For a teacher it returns exactly the courses taught by that teacher. |
| CourseService.GetStudentCourses | src/main/java/com/asos/reservationSystem/services/impl/CourseServiceImpl.java:106-117 | Refuses an empty user and any non-student. For a student it returns exactly the courses whose roster holds that student. |
| CourseService.SaveCourse | src/main/java/com/asos/reservationSystem/services/impl/CourseServiceImpl.java:119-135 | A null course, an empty user and a non-teacher are refused in that order. Otherwise the course is saved with the caller as its teacher, and with the submitted name, room and roster. A course whose id names a stored course overwrites that course, keeping the keys and the sequence. Any other course is added under the next id and advances the sequence. Every other course and every other table is kept. |
| CourseService.SaveCourseKeepsValid | src/main/java/com/asos/reservationSystem/services/impl/CourseServiceImpl.java:133-134 | In a valid database the next id is fresh, so the save writes to it exactly when the course does not name a stored course. The database stays valid when the submitted roster is duplicate-free. |
| CourseService.SaveCourseTakesOver | src/main/java/com/asos/reservationSystem/services/impl/CourseServiceImpl.java:133-134 | Saving with the id of a course taught by someone else succeeds for any teacher: the caller becomes that course's teacher, and no course is added. |
| CourseService.RemoveCourse | src/main/java/com/asos/reservationSystem/services/impl/CourseServiceImpl.java:137-155 | A missing course, an empty user and a non-teacher are refused in that order. Otherwise the course and exactly its meetings are deleted, and everything else is kept. |
| CourseService.RemoveCourseIgnoresOwner | src/main/java/com/asos/reservationSystem/services/impl/CourseServiceImpl.java:148-154 | Any teacher can remove a course taught by somebody else. |
| CourseService.RemoveCourseKeepsValid | src/main/java/com/asos/reservationSystem/services/impl/CourseServiceImpl.java:152-154 | Removing a course keeps the database valid. |
| MeetingService.GetAllTeacherMeetings | src/main/java/com/asos/reservationSystem/services/impl/MeetingServiceImpl.java:22-31 | Returns exactly the teacher's meetings; the list is empty when there are none. |
| MeetingService.GetAllStudentMeetings | src/main/java/com/asos/reservationSystem/services/impl/MeetingServiceImpl.java:33-42 | Returns exactly the meetings the student holds. |
| MeetingService.RemoveMeeting | src/main/java/com/asos/reservationSystem/services/impl/MeetingServiceImpl.java:44-47 | Deletes exactly that meeting, with no check of any kind, and an unknown id changes nothing. |
| MeetingService.CreateMeeting | src/main/java/com/asos/reservationSystem/services/impl/MeetingServiceImpl.java:49-52 | `save` of the meeting as the client sent it, id included, with no check: the saved meeting is stored under some key, and only the meetings table and the id sequence can change. |
| MeetingService.CreateMeetingKeepsValid | src/main/java/com/asos/reservationSystem/services/impl/MeetingServiceImpl.java:49-52 | In a valid database, a meeting whose id names a stored row replaces exactly that row and adds none. Any other meeting is added under a fresh id as exactly one new row. Every other row is kept, and the database stays valid. |
| MeetingService.RemoveStudentMeeting | src/main/java/com/asos/reservationSystem/services/impl/MeetingServiceImpl.java:54-63 | The meeting keys stay the same. A stored meeting becomes unclaimed, whoever held it, and keeps its time, length, course and teacher. Every other meeting and every other table is unchanged, and an unknown id changes nothing. |
| MeetingService.RemoveStudentMeetingKeepsInvariants | src/main/java/com/asos/reservationSystem/services/impl/MeetingServiceImpl.java:54-63 | Releasing a meeting keeps a valid database valid and never creates an overlap in a student's schedule. |
| MeetingService.ListMeetingsCourse | src/main/java/com/asos/reservationSystem/services/impl/MeetingServiceImpl.java:67-75 | Returns exactly the course's unclaimed meetings, and the empty list when there are none. |
| MeetingService.RemoveStudentFromCourseMeetings | src/main/java/com/asos/reservationSystem/services/impl/MeetingServiceImpl.java:77-88 | The loop keeps every row and touches only the meetings table. |
| MeetingService.RemoveStudentFromCourseMeetingsIsBulkUpdate | src/main/java/com/asos/reservationSystem/services/impl/MeetingServiceImpl.java:77-88 | Releasing the found meetings one by one has the same effect as the repository's single bulk update (MeetingRepository.java lines 37-40). |
| MeetingService.AddStudentToMeeting | src/main/java/com/asos/reservationSystem/services/impl/MeetingServiceImpl.java:90-100 | The meeting keys stay the same. A stored meeting becomes held by the student, whoever held it before, and keeps its time, length, course and teacher. Every other meeting and every other table is unchanged, and an unknown id changes nothing. |
| MeetingService.AddStudentToMeetingCanDoubleBook | src/main/java/com/asos/reservationSystem/services/impl/MeetingServiceImpl.java:90-100 | Example: minute 60-120 held by student 7, then the student claims 75-105. A schedule with no overlaps ends up with two overlapping meetings held by the same student. |
| MeetingService.AddStudentToMeetingKeepsNotDoubleBooked | src/main/java/com/asos/reservationSystem/services/impl/MeetingServiceImpl.java:90-100 | Starting from schedules without overlaps, the unchecked claim keeps them so exactly when the student holds no other meeting that overlaps the one claimed. |
| MeetingService.AddRemoveInverse | src/main/java/com/asos/reservationSystem/services/impl/MeetingServiceImpl.java:54-63 | `removeStudentMeeting` undoes `addStudentToMeeting` on an unclaimed meeting, and `addStudentToMeeting` undoes `removeStudentMeeting` on a meeting the student held. On an unknown id both change nothing. |
| GuardedMeetingService.ClaimMeeting | src/test/java/com/asos/reservationSystem/unitTests/MeetingServiceTest.java:205-234 | A missing meeting gives "Meeting does not exist.". A student who holds a meeting overlapping this one gets "Student has another meeting at this time." (CONFLICT). The claim succeeds exactly when the meeting and the user exist and the student's range query over the meeting's interval is empty; then the student is set on the meeting. |
| GuardedMeetingService.CreateMeeting | src/test/java/com/asos/reservationSystem/unitTests/MeetingServiceTest.java:125-146 | Refuses a null meeting and one that begins before `now`. Otherwise it saves the meeting under the next id. |
| GuardedMeetingService.CreateMeetingKeepsInvariants | src/test/java/com/asos/reservationSystem/unitTests/MeetingServiceTest.java:125-146 | A created meeting lands under a fresh id as exactly one new row, so a valid database stays valid. A new meeting that nobody holds keeps schedules free of overlaps. |
| GuardedMeetingService.GetTeacherMeetings | src/test/java/com/asos/reservationSystem/unitTests/MeetingServiceTest.java:50-73 | An empty user gives "User does not exist.", and a non-teacher gives "Only teacher can use this endpoint: /teacherMeetings.". A teacher gets exactly the meetings they teach. |
| GuardedMeetingService.GetStudentMeetings | src/test/java/com/asos/reservationSystem/unitTests/MeetingServiceTest.java:75-99 | An empty user gives "User does not exist.", and a non-student gives "Only student can use this endpoint: /studentMeetings.". A student gets exactly the meetings they hold. |
| GuardedMeetingService.GetCourseMeeting | src/test/java/com/asos/reservationSystem/unitTests/MeetingServiceTest.java:176-202 | An empty user gives "User does not exist.", and a non-student gives "Only student can use this endpoint: /courseMeetings/{courseId}.". A student gets exactly the course's unclaimed meetings. |
| GuardedMeetingService.RemoveMeeting | src/test/java/com/asos/reservationSystem/unitTests/MeetingServiceTest.java:102-123 | A missing meeting gives "Meeting does not exist.", then a non-teacher gives "Only teacher can delete meeting.". Otherwise exactly that meeting is deleted and nothing else changes. |
| GuardedMeetingService.GuardsOnlyRefuse | src/test/java/com/asos/reservationSystem/unitTests/MeetingServiceTest.java:50-234 | Whenever a guarded listing, removal or claim passes its checks, its result equals that of the implementation's unguarded operation. |
| GuardedMeetingService.VacateMeeting | src/test/java/com/asos/reservationSystem/unitTests/MeetingServiceTest.java:148-175 | Succeeds exactly when the caller holds the meeting. It refuses a missing meeting and a caller who is not the holder. |
| GuardedMeetingService.ClaimKeepsNotDoubleBooked | src/test/java/com/asos/reservationSystem/unitTests/MeetingServiceTest.java:213-223 | The conflict check preserves the invariant that no student holds two overlapping meetings. |
| GuardedMeetingService.VacateKeepsNotDoubleBooked | src/test/java/com/asos/reservationSystem/unitTests/MeetingServiceTest.java:165-175 | Vacating preserves the same invariant. |
| GuardedMeetingService.ClaimTwiceRefused | src/test/java/com/asos/reservationSystem/unitTests/MeetingServiceTest.java:213-223 | A student cannot claim again a meeting of positive length that it already holds. |
| GuardedMeetingService.ClaimThenVacateRestores | src/test/java/com/asos/reservationSystem/unitTests/MeetingServiceTest.java:165-175 | Claiming an unclaimed meeting and vacating it gives the database back. |
| GuardedMeetingService.OverlappingClaimRefused | src/test/java/com/asos/reservationSystem/unitTests/MeetingServiceTest.java:213-223 | With minutes 60-120 held by the student, a claim of the meeting at 75-105 is refused because of the time conflict. |
| GuardedMeetingService.BackToBackClaimAccepted | src/test/java/com/asos/reservationSystem/unitTests/MeetingServiceTest.java:225-234 | With minutes 60-120 held, a claim of the meeting starting at 120 succeeds, because back-to-back meetings do not overlap. |
| TeachingService.ApplyTeacher | src/main/java/com/asos/reservationSystem/services/impl/TeachingServiceImpl.java:32-54 | Succeeds exactly for a student with no request of any status. Errors come in the source's order, and an existing request gives CONFLICT. On success one PENDING request stamped `now` is added. |
| TeachingService.ApplyKeepsValid | src/main/java/com/asos/reservationSystem/services/impl/TeachingServiceImpl.java:43-53 | The new request id is fresh, so exactly one request is added, and the one-request-per-user invariant holds afterwards. |
| TeachingService.ApplyTwiceRefused | src/main/java/com/asos/reservationSystem/services/impl/TeachingServiceImpl.java:43-47 | A second application is refused with "Teaching request already exists.". |
| TeachingService.GetTeachingRequests | src/main/java/com/asos/reservationSystem/services/impl/TeachingServiceImpl.java:56-68 | Refuses an empty user and any non-admin. For an admin it returns every request exactly once, unfiltered. |
| TeachingService.LeaveEach | src/main/java/com/asos/reservationSystem/services/impl/TeachingServiceImpl.java:100-101 | Running `deleteFromCourse` course by course, up to the first failure, never touches users, requests or tokens. |
| TeachingService.RemoveEach | src/main/java/com/asos/reservationSystem/services/impl/TeachingServiceImpl.java:104-105 | Running `removeCourse` course by course, up to the first failure, never touches users, requests or tokens. |
| TeachingService.ThenSetRole | src/main/java/com/asos/reservationSystem/services/impl/TeachingServiceImpl.java:102 | After a failed cascade `setRole` does not run, and requests are never touched by it. |
| TeachingService.UpdateTeachingRequestStatus | src/main/java/com/asos/reservationSystem/services/impl/TeachingServiceImpl.java:71-115 | An empty admin, a non-admin, a missing request and a repeat of the stored decision each fail before any write. Otherwise the new status is saved whatever the cascade does. Setting PENDING changes only the status. |
| TeachingService.CascadeFailureKeepsStatus | src/main/java/com/asos/reservationSystem/services/impl/TeachingServiceImpl.java:95-106 | Approving a target that is not a student, or rejecting one that is not a teacher, fails inside the cascade. The new status is kept. |
| TeachingService.OtherDecisionNotBlocked | src/main/java/com/asos/reservationSystem/services/impl/TeachingServiceImpl.java:85-96 | Only a repeat of the same decision is refused. The opposite decision on a decided request is saved. |
| TeachingService.DecideTwiceRefused | src/main/java/com/asos/reservationSystem/services/impl/TeachingServiceImpl.java:85-93 | Once a decision got past its checks, repeating it is refused with "Teaching request already approved." or "Teaching request already rejected." and changes nothing, even if its cascade failed. |
| TeachingService.LeaveOneIsBulk | src/main/java/com/asos/reservationSystem/services/impl/CourseServiceImpl.java:85-86 | The two bulk updates of one departure equal the set-based departure from that one course. |
| TeachingService.DeleteFromCourseIsLeaveOne | src/main/java/com/asos/reservationSystem/services/impl/CourseServiceImpl.java:84-89 | One successful `deleteFromCourse` is the set-based departure from that course. |
| TeachingService.LeaveMeetingsCompose | src/main/java/com/asos/reservationSystem/repositories/MeetingRepository.java:37-45 | Leaving one set of courses and then another has the same effect on meetings as leaving both at once. |
| TeachingService.LeaveRostersCompose | src/main/java/com/asos/reservationSystem/services/impl/CourseServiceImpl.java:87 | Leaving two disjoint sets of courses in turn has the same effect on rosters as leaving both at once. |
| TeachingService.LeaveCoursesCompose | src/main/java/com/asos/reservationSystem/services/impl/CourseServiceImpl.java:84-89 | The same composition holds for the whole database. |
| TeachingService.RemoveCourseIsDropOne | src/main/java/com/asos/reservationSystem/services/impl/CourseServiceImpl.java:152-154 | One successful `removeCourse` is the set-based deletion of that course and its meetings. |
| TeachingService.DropCoursesCompose | src/main/java/com/asos/reservationSystem/services/impl/CourseServiceImpl.java:152-154 | Deleting one set of courses and then another is deleting both at once. |
| TeachingService.LeaveEachIsBulk | src/main/java/com/asos/reservationSystem/services/impl/TeachingServiceImpl.java:100-101 | When the target is a student on every listed roster, the course-by-course loop completes without error. Its result is the set-based departure from all listed courses. |
| TeachingService.RemoveEachIsBulk | src/main/java/com/asos/reservationSystem/services/impl/TeachingServiceImpl.java:104-105 | When the target is a teacher and every listed course exists, the loop completes without error. Its result is the set-based deletion of all listed courses. |
| TeachingService.ApproveEffects | src/main/java/com/asos/reservationSystem/services/impl/TeachingServiceImpl.java:95-102 | Approving a student's request in a valid database, with the target's email stored:<br>• the decision completes without error and the status is saved;<br>• the target leaves every course it attended, with the meeting effects of leaving;<br>• no roster holds the target any more;<br>• the stored user with the target's email becomes a teacher;<br>• the database stays valid. |
| TeachingService.RejectEffects | src/main/java/com/asos/reservationSystem/services/impl/TeachingServiceImpl.java:95-106 | Rejecting a teacher's request in a valid database:<br>• the decision completes and the status is saved;<br>• exactly the courses the target taught, and exactly their meetings, are deleted;<br>• the stored user with the target's email becomes a student;<br>• the database stays valid. |
| TeachingService.ApproveReachesLeave | src/main/java/com/asos/reservationSystem/services/impl/TeachingServiceImpl.java:95-102 | After its checks pass, an approval saves the status, removes the student from every course it attended in one step, and then sets the TEACHER role. Leaving the courses one at a time, in query order, ends in the same state. |
| TeachingService.RejectReachesDrop | src/main/java/com/asos/reservationSystem/services/impl/TeachingServiceImpl.java:95-106 | After its checks pass, a rejection saves the status, deletes in one step every course the teacher taught together with its meetings, and then sets the STUDENT role. Removing the courses one at a time ends in the same state. |
| TeachingService.ClosingSetRole | src/main/java/com/asos/reservationSystem/services/impl/TeachingServiceImpl.java:102-106 | When the target's email is stored, the closing `setRole` always succeeds and changes only the user table. Every row with that email becomes the same row with the new role, every other row is unchanged, the user keys stay the same, and the database stays valid. |
| FormPatterns.LookaheadIsContains | ASOS-Frontend/FormInputModels/Validators/PasswordChangeInputValidator.cs:15-18 | `(?=.*[...])` matches exactly the strings that hold a member of the class, the same as the plain `[...]` search. |
| FormPatterns.EmailShape | ASOS-Frontend/FormInputModels/Validators/RegisterInputValidator.cs:13 | Every address the email pattern accepts holds exactly one '@' and ends with a dot and at least two ASCII letters. |
| FormPatterns.EmailAccepts | ASOS-Frontend/FormInputModels/Validators/RegisterInputValidator.cs:13 | The pattern accepts a non-empty local part, '@', a non-empty host, a dot and two or more letters. |
| FormPatterns.EmailWithinEmailAddress | ASOS-Frontend/FormInputModels/Validators/ChangeEmailInputValidator.cs:10-14 | Every address the pattern accepts passes `EmailAddress()` too, so the pattern alone decides. |
| FormPatterns.EmailAsWrittenWithinEmailAddress | ASOS-Frontend/FormInputModels/Validators/RegisterInputValidator.cs:10-13 | Every address the pattern accepts as .NET evaluates it, trailing newline included, also passes `EmailAddress()`: one '@', neither first nor last. |
| FormPatterns.EmailTrailingNewlineAccepted | ASOS-Frontend/FormInputModels/Validators/RegisterInputValidator.cs:13 | "a@bc.de" followed by a newline passes the pattern as .NET evaluates `$` but not under the intended reading. |
| FormPatterns.PhoneWithinAsWritten | ASOS-Frontend/FormInputModels/Validators/RegisterInputValidator.cs:36 | The intended phone rule accepts nothing that the rule as written refuses. |
| FormPatterns.PhoneWithinBackend | ASOS-Frontend/FormInputModels/Validators/RegisterInputValidator.cs:36 | Every phone the form's intended rule accepts is also accepted by the backend's pattern on `User.phoneNumber`. |
| FormPatterns.PhoneAsWrittenNotWithinBackend | ASOS-Frontend/FormInputModels/Validators/ProfileInputValidator.cs:22 | Two phones that the rule as written lets through and the backend refuses: one with an Arabic-Indic digit, and one ending in a newline. |
| ValidationAttributes.PasswordComplexity | ASOS-Frontend/ValidationAttributes/PasswordComplexityAttribute.cs:7-37 | Succeeds exactly for a strong password. Otherwise it returns the message of the first failing check in the order digit, lower case, upper case, special character, length; each message is returned exactly when its check is the first to fail. |
| ValidationAttributes.PasswordLengthBoundary | ASOS-Frontend/ValidationAttributes/PasswordComplexityAttribute.cs:31-34 | Eight characters covering every class pass. Seven fail on length alone. |
| ValidationAttributes.OtherPunctuationRefused | ASOS-Frontend/ValidationAttributes/PasswordComplexityAttribute.cs:26-29 | Punctuation outside the thirteen special characters does not count as special. |
| ValidationAttributes.FutureDateTimeOnly | ASOS-Frontend/ValidationAttributes/FutureDateTimeOnlyAttribute.cs:7-24 | Fails exactly on a date and time not after `now`, with the past-date message and the member's name. Every other value, null included, passes. |
| FormValidators.NotEmpty | ASOS-Frontend/FormInputModels/Validators/RegisterInputValidator.cs:11 | Fails, with its message, exactly on null, empty or white-space-only strings. |
| FormValidators.RegisterPasswordRules | ASOS-Frontend/FormInputModels/Validators/RegisterInputValidator.cs:16-22 | The registration password chain accepts exactly the strong passwords. |
| FormValidators.NewPasswordRules | ASOS-Frontend/FormInputModels/Validators/PasswordChangeInputValidator.cs:13-19 | The lookahead chain accepts exactly the strong passwords. |
| FormValidators.PasswordRuleSetsAgree | ASOS-Frontend/FormInputModels/Validators/PasswordChangeInputValidator.cs:13-19 | The registration chain (RegisterInputValidator.cs lines 16-22), the password-change chain and the complexity attribute accept the same passwords. On a non-blank password both chains report first the attribute's message. |
| FormValidators.EmailRules | ASOS-Frontend/FormInputModels/Validators/RegisterInputValidator.cs:10-14 | A required address passes `NotEmpty`, `EmailAddress()` and the pattern exactly when it is present and matches the pattern under the given reading: as .NET evaluates it (`AsWritten`), or with `$` at the end of input (`Intended`). |
| FormValidators.PhoneRules | ASOS-Frontend/FormInputModels/Validators/RegisterInputValidator.cs:34-36 | A required phone passes exactly when it matches `^\+\d{12}$` under the given reading: as .NET evaluates it (Unicode `\d`, a final newline tolerated), or as '+' followed by twelve ASCII digits. |
| FormValidators.ConfirmRules | ASOS-Frontend/FormInputModels/Validators/RegisterInputValidator.cs:24-26 | A confirmation passes exactly when it is not blank and equals the value it confirms. |
| FormValidators.ValidateRegister | ASOS-Frontend/FormInputModels/Validators/RegisterInputValidator.cs:8-37 | The registration form has no failure exactly when:<br>• the email matches the pattern;<br>• the password is strong and confirmed;<br>• both names are not blank;<br>• the phone matches `^\+\d{12}$`.<br>With the `AsWritten` reading the patterns are matched as .NET runs them; with `Intended` as evidently meant. |
| FormValidators.RegisterAdmitsBackendRefusedPhone | ASOS-Frontend/FormInputModels/Validators/RegisterInputValidator.cs:34-36 | As .NET runs the form, a registration with the phone "+421949111111" followed by a newline has no failure, yet the backend's pattern on `User.phoneNumber` refuses that phone. |
| FormValidators.RegisteredPhoneAcceptedByBackend | ASOS-Frontend/FormInputModels/Validators/RegisterInputValidator.cs:34-36 | With the phone pattern as intended, every registration the form accepts carries a phone that the backend's entity pattern accepts. |
| FormValidators.ValidatePasswordChange | ASOS-Frontend/FormInputModels/Validators/PasswordChangeInputValidator.cs:8-24 | The password-change form has no failure exactly when the current password is not blank, the new one is strong, and the confirmation is not blank and equals the new one. |
| FormValidators.CurrentPasswordUnconstrained | ASOS-Frontend/FormInputModels/Validators/PasswordChangeInputValidator.cs:10-11 | The current password need only be non-blank. Any non-blank replacement, even one equal to the new password, gives the same result. |
| FormValidators.ValidateEmailChange | ASOS-Frontend/FormInputModels/Validators/ChangeEmailInputValidator.cs:8-26 | The email-change form has no failure exactly when both addresses match the pattern under the given reading, the new one differs from the old one, and the password is not blank. |
| FormValidators.EmailChangeAdmitsTrailingNewline | ASOS-Frontend/FormInputModels/Validators/ChangeEmailInputValidator.cs:17-21 | As .NET runs the form, changing "a@bc.de" to "a@bc.de" followed by a newline has no failure. With the pattern as intended, the same input fails. |
| FormValidators.DescriptionRules | ASOS-Frontend/FormInputModels/Validators/ProfileInputValidator.cs:24-26 | A description passes exactly when it is absent or at most 500 characters long. The length check is skipped on null and on the empty string. |
| FormValidators.EmailAddress | ASOS-Frontend/FormInputModels/Validators/ProfileInputValidator.cs:12 | `EmailAddress()` in its default mode lets a null value through and otherwise accepts exactly the strings with one '@' that is neither first nor last. When it refuses, its one message is "Neplatná emailová adresa." |
| FormValidators.ProfileEmailRules | ASOS-Frontend/FormInputModels/Validators/ProfileInputValidator.cs:10-12 | The profile's email chain has no failure exactly when the address is not blank and passes `EmailAddress()`. Unlike registration, it applies no pattern. |
| FormValidators.ValidateProfile | ASOS-Frontend/FormInputModels/Validators/ProfileInputValidator.cs:8-27 | The profile form has no failure exactly when:<br>• the email is not blank and passes `EmailAddress()`;<br>• both names are not blank;<br>• the phone matches `^\+\d{12}$` under the given reading;<br>• the description, if present, is at most 500 characters. |
| FormValidators.DescriptionBoundary | ASOS-Frontend/FormInputModels/Validators/ProfileInputValidator.cs:24-26 | 500 characters pass and 501 fail. A null or empty description passes. |
| FormValidators.DurationRules | ASOS-Frontend/FormInputModels/Validators/CreateMeetingInputValidator.cs:13-15 | A duration passes exactly when it is present and positive. `NotEmpty` on an `int?` refuses only null, so a null duration reports only the required message. A zero or negative one reports only the positive-number message. |
| FormValidators.DateRules | ASOS-Frontend/FormInputModels/Validators/CreateMeetingInputValidator.cs:17-25 | A date passes exactly when it is present and after `now`. A null date reports both messages, because the `Must` also runs on null. A present date not after `now` reports only the not-upcoming message. |
| FormValidators.ValidateCreateMeeting | ASOS-Frontend/FormInputModels/Validators/CreateMeetingInputValidator.cs:8-26 | The meeting form has no failure exactly when the subject is not blank, the duration is positive, and the date is set and after `now`. |
| FormValidators.MeetingAtNowRefused | ASOS-Frontend/FormInputModels/Validators/CreateMeetingInputValidator.cs:22-25 | A meeting set for the current minute is refused, because the comparison is strict. |
| FormValidators.FutureChecksAgreeOnDates | ASOS-Frontend/FormInputModels/Validators/CreateMeetingInputValidator.cs:22-25 | The attribute (FutureDateTimeOnlyAttribute.cs lines 9-21) and `BeAFutureDate` agree on every present date. On a missing date the attribute passes and `BeAFutureDate` fails. |

## Left out

- HTTP controllers, JWT issuing, authentication and logout, DTO mappers, photo storage (`saveUserPhoto`, `getUserPhoto`, `removeUserPhoto`) and the database initializer are not part of this model. They are plumbing around the core.
- `getUser`: resolving the principal to a user is left out. Every operation receives the already-resolved optional user.
- The wall clock and the password encoder are parameters. The encoder's matching and hashing are not modelled.
- Concurrency and transactions are not modelled. Each operation is one atomic step on the database, and a failed cascade leaves the writes made before the failure.
- CourseService.SaveCourse: the course price is not modelled. The `@NotNull` constraints on name, price and room (Course.java lines 23-30) are not modelled either: name and room are plain strings in the model, so a save cannot fail on them. A course whose id no stored course has is inserted under a fresh id, as Hibernate's merge does for a generated id before version 6.6.
- UserService.UpdateProfile: the "Wrong format of phone number." branch (UserServiceImpl.java lines 113-117) is not modelled. The setter it guards cannot throw; the pattern is enforced on save instead.
- UserService.SetRole: the diagnostic message naming the email is not modelled. Only the user-facing message and status are kept, as for every other error.
- GuardedMeetingService.ClaimMeeting: the status kinds of its errors, and of the guarded listings and removal, are not fixed by the unit tests that describe them. The model uses NOT_FOUND for a missing meeting or user, CONFLICT for a clash and BAD_REQUEST otherwise.
- GuardedMeetingService.RemoveMeeting: the tests do not say which refusal wins when the meeting is missing and the caller is not a teacher; the model checks the meeting first. The caller is a resolved user, because the tests never pass an empty one.
- GuardedMeetingService.CreateMeeting: neither a teacher-role check nor a teacher-overlap check is modelled; the unit tests exercise neither.
- The finders `findAllByTeacher_Id`, `findAllByStudent_Id` and `findAllByCourse_IdAndStudent_Id` that the meeting service calls are modelled from their derived names. The repository interface does not declare them under those names.
- UserService.SaveUser: the `@NotNull` constraints on first name, last name, email, password and role (User.java lines 31-49) are not modelled. Those fields are plain strings and a role in the model, so they are never null, and a save cannot fail on them.
- UserService.UpdateProfile: for the same reason, a profile update whose data has a null first or last name cannot be expressed. In the source the save refuses it.
- MeetingService.CreateMeeting: the `@NotNull` constraints on beginning and duration (Meeting.java lines 23-27) are not modelled, because both are integers in the model and a save cannot fail on them. `course` and `teacher` are nullable `@ManyToOne` references (Meeting.java lines 29-35), but the model gives every meeting a course and a teacher, so a meeting without either cannot be expressed.
- MeetingService.CreateMeeting: a meeting carrying an id that no stored row has is inserted under a fresh id, as Hibernate's merge does for a generated id before version 6.6. Later versions refuse such a merge instead.
- The console messages that `removeStudentMeeting`, `removeStudentFromCourseMeetings` and `addStudentToMeeting` print for an unknown meeting or an empty result (MeetingServiceImpl.java lines 58, 81 and 94) are not modelled. They are output only; the database is left unchanged in each case.
- ValidationAttributes.PasswordComplexity: `password.Length` counts UTF-16 code units, and the model counts Unicode scalar values. The eight-character minimum differs only for passwords with characters outside the Basic Multilingual Plane.
- FormValidators.NotEmpty: string lengths count Unicode scalar values, not UTF-16 code units. The two differ only for characters outside the Basic Multilingual Plane, which also affects `MinimumLength` and `MaximumLength`.
- FormPatterns.IsUnicodeDecimalDigit: only six blocks of Unicode decimal digits are listed, not the whole Nd category. They are enough to exhibit the phone finding.
- FormValidators.PhoneRules, FormValidators.ValidateRegister and FormValidators.ValidateProfile inherit that gap under the `AsWritten` reading. A phone written in, say, Thai digits passes the form in .NET, but the model refuses it.
- ValidationAttributes.PasswordComplexity: a null value makes the attribute throw in `Regex.IsMatch`. The model takes a string.
- FormValidators.ValidateCreateMeeting: dates are whole minutes from `DateTime.MinValue`. Sub-minute precision is not modelled.
- Validators of the login and course-creation forms are not part of this model.
- The built-in data annotations on the input models (`[Required]`, `[EmailAddress]`, `[RegularExpression]`, `[Compare]`, `[Range]` in RegisterInputModel.cs, EmailChangeInputModel.cs, ProfileInputModel.cs, PasswordChangeInputModel.cs and CreateMeetingInputModel.cs) are not modelled. Only the FluentValidation validators and the two custom attributes are. Whether a page runs the annotations as well depends on its form setup, which is not part of this model.
- GuardedMeetingService.ClaimMeeting: the tests never pass an empty user, so nothing fixes whether a missing meeting or a missing user is reported first. The model checks the meeting first, as the tests do for the meeting.

## Findings

| source | as written | input that shows it | evidently intended | confidence | as-written member | corrected member |
|---|---|---|---|---|---|---|
| ASOS-Frontend/FormInputModels/Validators/RegisterInputValidator.cs:36 | `^\+\d{12}$` in .NET: `\d` matches every Unicode decimal digit, and `$` also matches before a final newline. The same rule appears in ProfileInputValidator.cs line 22. | "+" then U+0661 then "42194911111"; also "+421949111111" followed by a newline. Both pass the form and are refused by the backend's phone pattern. | '+' followed by exactly twelve ASCII digits, which the backend also accepts | not executed | FormValidators.RegisterAdmitsBackendRefusedPhone | FormValidators.RegisteredPhoneAcceptedByBackend |
| ASOS-Frontend/FormInputModels/Validators/RegisterInputValidator.cs:13 | The email pattern ends in `$`, which in .NET also matches just before a final newline. The same pattern appears in ChangeEmailInputValidator.cs lines 13 and 19. | "a@bc.de" followed by a newline. A single-line input field does not produce one, but a pasted or programmatic value can. The claim concerns the FluentValidation validator on its own: the input model's built-in `[RegularExpression]` matches the whole string and would refuse this input if the page also ran data annotations. | the address must end with the top-level letters | not executed | FormValidators.EmailChangeAdmitsTrailingNewline | FormPatterns.EmailShape |
