# Academic-records core of the university portal

This project models the part of the portal's `server.js` that keeps the
academic records consistent. It covers:

- the enrollment transition of a student in a course: enrolled list,
  waitlist and seat limit;
- the delete cascades for a student and for a course;
- the fee report, which joins students to their fees with default rows,
  and the fee status update;
- mark entry (an upsert keyed on student, course and exam type) and the
  marks analytics;
- the attendance log guard (at most one record per student, course and
  day) and the attendance summary;
- signup, the staff tool that adds a student, and course creation and
  update;
- the `isTeacher` staff guard;
- the timetable chosen by role.

The store is a value `Db` with one sequence per collection, in insertion
order. Each handler is a function from the store and the request to a
`Reply` (status class and new store). It has the source's branches in the
source's order, and its contract states every status and the new store.

The handlers that change documents step by step are also methods of the
class `Portal.Store`. Its fields are the collections. Each method is proved
to answer and leave the store exactly as the handler's function says, and
to keep the store invariant that the function is proved to keep. The
analytics loop is the method `Marks.Analyze`, which works over maps. It is
proved against the grouping it is meant to build.

Modules:

- `Wrappers`: `Option`.
- `Records`: the entities, the store, the statuses, the constants, and
  JavaScript truthiness of request fields.
- `Seqs`: filter, first match, subsequence, and frame lemmas.
- `Enrollment`: the transition and the enrollment handler.
- `Cascade`: the student and course delete handlers.
- `FeeReport`: the fee report and the fee status update.
- `Marks`: mark entry and analytics.
- `AttendanceLog`: the attendance log and summary.
- `Accounts`: signup and add-student.
- `Courses`: course create and update.
- `Schedule`: the timetable.
- `Portal`: the store class and the staff-guard lemma.

Conventions:

- Request body fields that may be missing are `Option` values. A string
  field counts as given when it is present and not empty. A number field
  counts as given when it is present and not zero.
- A user's stored studentId is a string, null, or no field at all
  (`StoredId`). The student delete cascade filters on it. A null matches no
  dependent record. No field gives an undefined filter value, which the
  store drops, so every record matches.
- Dates are abstract day numbers. "Now plus one year" (`nextYear`) and the
  fresh document identifiers are parameters.

## Model

| member | source | states |
|---|---|---|
| Portal.StaffGuardRefuses | server.js:198-205 | for a role header other than 'teacher' or 'admin', every state-changing staff-only handler answers 403 and leaves the store unchanged, whatever its other arguments |
| Portal.StaffGuardAdmits | server.js:198-205 | for the role header 'teacher' or 'admin', no state-changing staff-only handler answers 403, whatever its other arguments |
| Accounts.SignupRequest | server.js:212-261 | 400 exactly when name, username or password is missing, or both the studentId and the correct secret key are missing; 403 exactly when a complete form carries a wrong secret key; 409 only for a taken username or an already registered student; on 201 the user is appended (teacher with the key, otherwise student) and a student also gets an 'Unpaid' 5000 'New Enrollment' fee; nothing else changes |
| Accounts.SignupKeepsUnique | server.js:226-244 | signup keeps usernames unique, and keeps studentIds unique among students |
| Accounts.SignupStudentHasFee | server.js:247-255 | a student who signs up is reportable and has the enrollment fee among their joined fees |
| Accounts.AddStudentRequest | server.js:289-311 | 403 exactly for non-staff; 409 exactly when some user has the username or the studentId; 201 exactly when a staff caller's username and studentId are both free; on 201 the student and their enrollment fee are appended and nothing else changes |
| Accounts.AddStudentKeepsUnique | server.js:292-297 | adding a student keeps usernames unique, and keeps studentIds unique among students |
| Cascade.CascadeStudent | server.js:336-341 | after the five dependent deletes, no mark, attendance, fee or appointment matches the filter on the user's stored studentId and no ticket was submitted by the user as 'student'; users, courses and timetables are unchanged; every record that does not refer to the user survives |
| Cascade.CascadeStudentKeepsOthers | server.js:336-341 | each surviving dependent record keeps its multiplicity and relative order |
| Cascade.CascadeStudentIdempotent | server.js:336-341 | running the cascade a second time removes nothing more |
| Cascade.CascadeWithoutStudentIdField | server.js:333-340 | deleting a user document with no studentId field (the seeded staff) empties the marks, attendance, fees and appointments of every student, because the undefined filter value is dropped |
| Cascade.CascadeNullStudentId | server.js:333-341 | deleting a user whose stored studentId is null (a teacher who signed up) removes only their student tickets |
| Cascade.DeleteStudentRequest | server.js:330-347 | 403 exactly for non-staff; 404 exactly when no user has the identifier (nothing deleted); 200 exactly when a staff caller names an existing user; on 200 exactly that user is removed and the cascade has run for them |
| Cascade.CascadeCourse | server.js:414-416 | after the three deletes, no timetable slot, mark or attendance record has the course code; the other collections are unchanged; the records of other courses survive |
| Cascade.CascadeCourseKeepsOthers | server.js:414-416 | the surviving slots, marks and attendance keep their multiplicity and relative order |
| Cascade.DeleteCourseRequest | server.js:404-422 | 403 exactly for non-staff; 404 exactly when no course has the code; 200 exactly when a staff caller names an existing course; on 200 the first such course is removed and the course cascade has run |
| Courses.CreateCourseRequest | server.js:352-379 | 403 exactly for non-staff; 400 exactly when the code, title, seat count or teacher header is missing (a seat count of 0 counts as missing); 409 exactly when the code is taken; 201 exactly when a staff request is complete and its code is free; on 201 the course is appended with empty lists |
| Courses.CreateKeepsCodesUnique | server.js:361-373 | creation keeps course codes unique |
| Courses.CreateKeepsCourses | server.js:361-373 | creation keeps course codes unique; all courses remain well formed and within capacity exactly unless a course with a negative seat count was created |
| Courses.UpdateCourseRequest | server.js:381-400 | 403 exactly for non-staff; 404 exactly when no course has the code; 200 exactly when a staff caller names an existing course; on 200 the first such course gets the new seat count, and the title and teacher when they are given; its lists are untouched |
| Courses.UpdateCapacity | server.js:385-390 | an update keeps every course's lists well formed; all courses stay within capacity exactly when the new seat count is at least the updated course's number of enrolled students |
| Courses.UpdateBelowEnrolledIsAccepted | server.js:385-390 | a full two-seat course updated to one seat is accepted with both students still enrolled |
| Enrollment.ParseAction | server.js:464-479 | the actions are exactly 'enroll', 'waitlist' and 'drop' |
| Enrollment.Without | server.js:460-461 | the array filter removes every copy of the student and keeps everyone else |
| Enrollment.WithoutCount | server.js:460-461 | every other student keeps their number of occurrences |
| Enrollment.Apply | server.js:460-481 | the transition changes only the course's two lists |
| Enrollment.PlacementRule | server.js:464-479 | enroll gives a seat exactly when the enrolled list without the student is shorter than the seat count, and the waitlist otherwise; afterwards the student is on exactly one list, once, at the end of that list (or on none after a drop) |
| Enrollment.TransitionKeepsOthers | server.js:460-481 | other students stay on the same list, with the same multiplicity and relative order |
| Enrollment.TransitionKeepsCapacity | server.js:464-470 | a course within its seat count stays within it |
| Enrollment.TransitionKeepsWellFormed | server.js:460-481 | no duplicates on either list, and nobody on both, is preserved |
| Enrollment.DropIsIdempotent | server.js:460-476 | dropping twice is dropping once |
| Enrollment.DropDoesNotPromote | server.js:460-476 | a drop frees a seat but promotes nobody from the waitlist |
| Enrollment.TwoSeatScenario | server.js:464-477 | with two seats: A and B are enrolled, C is waitlisted, and after A drops B is enrolled and C is still waitlisted |
| Enrollment.TransitionRequest | server.js:447-486 | 403 exactly for non-staff; 400 for a missing studentId or action; 404 exactly when the course or the student is missing; 400 for an unknown action on an existing course and student; 200 exactly when a staff request names an existing course and student with a known action; on 200 only the first course with the code is changed, by the transition |
| Enrollment.TransitionRequestKeepsCoursesValid | server.js:447-486 | enrollment requests keep every course well formed and within its seat count |
| FeeReport.FeesOf | server.js:498-505 | the lookup joins exactly the fees with the student's studentId, each as often as it is stored (no deduplication), in store order |
| FeeReport.RowsOf | server.js:508-523 | a student without fees gets one row with id = user id, 5000, 'No Record', the next-year due date and 'N/A'; a student with fees gets one row per fee, the fee's fields, and 'N/A' when the semester is missing; every row carries the student's studentId and name |
| FeeReport.ProjectFees | server.js:494-525 | every row of the report is a joined row or a default row of a student-role user with a studentId |
| FeeReport.ProjectionRowCount | server.js:494-525 | the report has, summed over reportable users, max(1, number of their fees) rows |
| FeeReport.ProjectionIsTotal | server.js:494-525 | every reportable student has a row in the report |
| FeeReport.RowsOfStudent | server.js:494-525 | the rows with a given studentId are the report of the reportable users with that studentId |
| FeeReport.StudentRows | server.js:494-525 | a student whose studentId is unique among reportable users has exactly their own rows in the report |
| FeeReport.DefaultRowsNameNoFee | server.js:516-523 | when user and fee identifiers do not collide and statuses are valid, a row says 'No Record' exactly when its identifier names no fee |
| FeeReport.UpdateFeeStatusRequest | server.js:534-556 | 403 exactly for non-staff; 400 for a status outside the three allowed ones; 404 exactly when no fee has the identifier; 200 exactly when a staff caller gives an allowed status for an existing fee; on 200 only that fee's status changes |
| FeeReport.DefaultRowCannotBeUpdated | server.js:543-552 | updating the status of a default row of the report is refused with 404 and changes nothing |
| Marks.UpsertMark | server.js:635-639 | afterwards the first mark with the key carries the new score, and the given maximum (else the old one, else 100); a mark is appended only when none had the key; every other mark, including a later one with the key, is unchanged |
| Marks.UpsertKeepsKeysUnique | server.js:635-639 | the upsert never creates a second mark for a key |
| Marks.UpsertIdempotent | server.js:635-639 | entering the same mark twice gives the same store as entering it once |
| Marks.MarkEntryRequest | server.js:628-644 | 403 exactly for non-staff; 400 and no write for the CLASS_AVG identifier; 201 exactly for a staff entry of any other studentId, and then the upsert |
| Marks.MarkEntryKeepsClassAverages | server.js:632-639 | no mark entry for a given studentId changes, adds or removes a class-average mark |
| Marks.LastAvg | server.js:658-661 | there is an average for a course and exam type exactly when some class-average mark has them |
| Marks.LastAvgIsLast | server.js:658-661 | the recorded average is the score of a matching class-average mark that no later matching mark follows |
| Marks.AnalyticsMeaning | server.js:649-662 | the grouping over the query is the student's marks of each course in store order, and the last class average per course and exam type, or empty when the argument is CLASS_AVG |
| Marks.Analyze | server.js:646-668 | the loop builds exactly the student's marks per course (only courses in which they have marks) and, unless the argument is CLASS_AVG, the last class-average score per course and exam type; for CLASS_AVG the averages are empty |
| AttendanceLog.LogAttendanceRequest | server.js:670-701 | 403 exactly for non-staff; 404 when no student has the studentId; 400 and no write for a missing or unparseable date; 409 exactly when the student already has a record for the course on that day; 400 and no write for an invalid status; 201 exactly when all checks pass, with exactly one record appended |
| AttendanceLog.LogKeepsSessionsUnique | server.js:677-696 | logging never creates a second record for a student, course and day |
| AttendanceLog.LogTwiceConflicts | server.js:677-688 | logging the same record again is refused with 409 and changes nothing |
| AttendanceLog.Summary | server.js:707-718 | the summary has a row exactly for each course in which the student has a record |
| AttendanceLog.SummaryBounds | server.js:707-718 | every row has 1 <= totalClasses, and 0 <= presentCount <= totalClasses, counting only 'Present' |
| AttendanceLog.Percentage | server.js:716 | the exact percentage lies between 0 and 100 and is 100 exactly when every class was attended |
| AttendanceLog.SummaryAppend | server.js:707-718 | one more record of the student adds one to its course's total, adds one to its present count when 'Present', and leaves the other rows unchanged |
| AttendanceLog.LogThenSummary | server.js:690-718 | a logged record shows up in the summary as one more class, and as one more present when its status is 'Present' or defaulted |
| Schedule.StudentIdOf | server.js:766-772 | the studentId used is that of a user with the username and is not empty; with unique usernames, there is none exactly when no such user has a non-empty studentId |
| Schedule.CodesOf | server.js:776-782 | the codes are exactly those of the courses where the student is enrolled or waitlisted, and there are none exactly when no course lists the student |
| Schedule.ScheduleFor | server.js:758-802 | 403 exactly for a role other than teacher, admin or student; staff see exactly the stored slots they teach; a student without a non-empty studentId sees nothing; a student sees exactly the stored slots of courses they are enrolled or waitlisted in |
| Schedule.ScheduleIsVisibleSlots | server.js:776-791 | the schedule is the stored slots that are visible to the user, each as often and in the order stored; the early return for a student in no course changes nothing |
| Portal.Store.Transition | server.js:447-486 | the method's step-by-step list updates answer and change the store as Enrollment.TransitionRequest says, and keep all courses valid |
| Portal.Store.DeleteStudent | server.js:330-347 | the primary delete followed by the student cascade gives Cascade.DeleteStudentRequest |
| Portal.Store.DeleteRecordsOf | server.js:336-341 | the five dependent deletes, one collection at a time, leave the store as Cascade.CascadeStudent says |
| Portal.Store.DeleteRecordsOfCourse | server.js:414-416 | the three dependent deletes, one collection at a time, leave the store as Cascade.CascadeCourse says |
| Portal.Store.DeleteCourse | server.js:404-422 | the primary delete followed by the course cascade gives Cascade.DeleteCourseRequest |
| Portal.Store.EnterMark | server.js:628-644 | updating in place or inserting gives Marks.MarkEntryRequest, and keeps at most one mark per key |
| Portal.Store.LogAttendance | server.js:670-701 | the guarded insert gives AttendanceLog.LogAttendanceRequest, and keeps at most one record per student, course and day |
| Portal.Store.Signup | server.js:212-261 | gives Accounts.SignupRequest and keeps usernames and student studentIds unique |
| Portal.Store.AddStudent | server.js:289-311 | gives Accounts.AddStudentRequest and keeps usernames and student studentIds unique |
| Portal.Store.CreateCourse | server.js:352-379 | gives Courses.CreateCourseRequest, keeps course codes unique, and keeps the courses valid unless the new seat count is negative |
| Portal.Store.UpdateCourse | server.js:381-400 | gives Courses.UpdateCourseRequest and keeps every course's lists well formed |
| Portal.Store.UpdateFeeStatus | server.js:534-556 | gives FeeReport.UpdateFeeStatusRequest and keeps every fee's status one of the three allowed ones |
| Records.ParseAttendanceStatus | server.js:82-87 | a missing status is the schema default 'Present'; only 'Present', 'Absent' and 'Late' are accepted, each as its own status |

## Left out

- Express routing and middleware wiring, the database connection, sample
  data seeding, and the static catch-all are left out. They are I/O
  plumbing.
- Server errors (the 500 paths) and store failures are left out. So is the
  non-transactional partial failure of a cascade: each cascade runs to the
  end.
- Races between concurrent requests are left out: every handler is one
  atomic step.
- Dates are day numbers. The local-midnight day window of the attendance
  duplicate check becomes equality of days. "Now plus one year" is a
  parameter.
- AttendanceLog.Percentage: exact real division, not floating point.
- Schedule.ScheduleFor: the sort by day and start time is not modelled.
  Slots come in store order.
- Marks.Analyze: the query's sort by course and exam type is not
  modelled. Marks come in store order, which also decides which class
  average is "last".
- Request body values are modelled as strings and integers. Other JSON
  types are left out, and so are `parseInt` of non-numeric strings and
  its NaN, which the store rejects with a 500.
- In the course update the seat count is an integer. A missing seat
  count is a 500 in the source and is not modelled.
- Request fields used in a store query (studentId, course, exam type,
  username) are present strings. So the store's dropping of an undefined
  query value is modelled only where the value comes from a stored
  document: the studentId filter of the student cascade.
- The store's schema validators are left out: required fields that are
  empty strings, and a missing mark score. The unique indexes are left out
  too, for example a second teacher whose studentId is null.
- Accounts.SignupRequest and Accounts.AddStudentRequest: the 201 reply is
  sent before the fee is created in the source. The model treats both
  writes as one step.
- Marks.MarkEntryKeepsClassAverages: holds for a present studentId only.
  A staff mark entry without a studentId passes the CLASS_AVG check, and
  with the undefined filter value dropped its upsert matches on course and
  exam type alone. It can then overwrite a class-average mark, or insert a
  mark with no studentId. The model's studentId is always a string, so it
  does not capture this case.
- The following handlers are not modelled. They are listing or thin
  record CRUD with no consistency rule of the core:
  - login and its plaintext password comparison;
  - the student list and the student update;
  - the enrollment listing;
  - tickets and appointments;
  - attendance by date;
  - timetable slot creation;
  - announcements;
  - the course listing with its join;
  - the teacher's own courses.
