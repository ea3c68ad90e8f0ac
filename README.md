# A verified model of the eduplatform learning platform

eduplatform is a role-based learning platform. Students, teachers and an
administrator use a set of PHP JSON endpoints over a relational database,
and JavaScript pages run in the browser. This project models the platform's
core in Dafny and proves what each part promises.

The core covers:

- the quiz grader;
- enrollment admission;
- the cascade deletes of a course, a teacher and a student;
- the assignment-submission upsert and its grading;
- registration, login and account activation;
- the handlers that create courses, assignments, quizzes, questions and materials;
- the paginated course catalogue and its search;
- the `sanitize` helper;
- the decision logic of the registration form, the student dashboard and the shared page script.

How the model is built:

- **The database** is the class `StoreModule.Store`.
  - It has one `map<int, Row>` field per table and one auto-increment counter `nextId`.
  - `T()` takes a snapshot of the store as a `Schema.Tables` value.
  - `Schema.WellFormed` states the store's invariants: every id is below the counter, and the columns the source treats as unique (email, a user's students and teachers rows, the student card) are unique.
  - `Schema.Integrity` states referential integrity: every foreign key names an existing row.
- **Each endpoint** is a method that `modifies` the store.
  - It runs the endpoint's checks in the source's order and performs its updates.
  - It returns the HTTP code and the status of the JSON answer.
  - Its `ensures` ties the new store and the response to a specification function of the old tables, named `…Spec`.
  - The endpoint's promises are lemmas about that function.
  - A transaction becomes "build the new tables, write them back only on commit".
- **Parameters stand in for the parts of the environment.** The session, the clock (`NOW()`), the password hash and its check, `generateToken`, `uniqid`, `move_uploaded_file` and `FILTER_VALIDATE_EMAIL` are all parameters.
- **The browser scripts** are functions of what the page holds. The registration wizard is a small class holding the current step, and the enrollment dialog is a class holding the selected course.
- **The quiz score** is a `real`.
- **Registration holds for any sanitized values.** The registration lemmas are stated for an arbitrary value `c` of the sanitized fields (`Register.Cleaned`), so they hold whatever `sanitize` makes of the input. `Register.RegisterRequestChecks` then ties the endpoint to the values `sanitize` actually produces, through `Register.CleanOf`.

## Model

| member | source | states |
|---|---|---|
| Common.Preflight | backend/api/courses/enroll.php:10-20 | OPTIONS is answered 200 with no body and a method the route does not accept gets 405, before any other check; any other request goes on |
| Request.BearerToken | backend/api/courses/enroll.php:22-23 | the token (the header with every "Bearer " removed) is null exactly when there is no Authorization header |
| Request.SchemeOnlyHasNoToken | backend/api/courses/enroll.php:23-29 | a header that holds only "Bearer " yields the empty token, which the handlers refuse as absent |
| Request.BearerTokenOf | backend/api/courses/enroll.php:23 | "Bearer " followed by a token without the scheme yields that token |
| Request.BareTokenKept | backend/api/courses/enroll.php:23 | a header without the scheme is taken whole |
| Request.FirstMissing | backend/api/auth/register.php:45-52 | the result names a field that is missing or empty, and every field before it is present; None means every field is present |
| Request.FindMissing | backend/api/auth/register.php:45-52 | the `foreach` over the required fields returns the first missing one, as `FirstMissing` defines it |
| InputSanitizer.StripSlashes | backend/config/database.php:52 | PHP `stripslashes`: the output is never longer than the input |
| InputSanitizer.StripAddSlashes | backend/config/database.php:52 | `stripslashes` undoes `addslashes` on every string |
| InputSanitizer.HtmlSpecialChars | backend/config/database.php:53 | `htmlspecialchars` with ENT_QUOTES and double encoding: the output is never shorter than the input |
| InputSanitizer.DecodeEscaped | backend/config/database.php:53 | decoding the five entities gives back the input, so escaping loses nothing |
| InputSanitizer.EscapedHasNoSpecials | backend/config/database.php:53 | no '<', '>', '"' or "'" is left after escaping |
| InputSanitizer.AmpersandsBeginEntities | backend/config/database.php:53 | every '&' after escaping begins one of &amp;, &quot;, &#039;, &lt; and &gt; |
| InputSanitizer.Sanitize | backend/config/database.php:49-55 | `sanitize(null)` is null and a text gives a text (trim, then stripslashes, then htmlspecialchars); the lemmas below state what that text holds |
| InputSanitizer.SanitizedIsSafe | backend/config/database.php:49-55 | a sanitized string holds no markup character, and each of its '&' opens an entity |
| InputSanitizer.SanitizePlainUnchanged | backend/config/database.php:49-55 | a string with no surrounding blanks, no backslash and no markup character comes through unchanged |
| InputSanitizer.SanitizeNotIdempotent | backend/config/database.php:53 | sanitizing "&" twice gives "&amp;amp;", not "&amp;" |
| Text.Trim | backend/config/database.php:51 | the trim is never longer than the input and has no stripped character at either end |
| Text.TrimIsInfix | backend/config/database.php:51 | the trim is the part of the input that starts right after the stripped prefix |
| Text.TrimIdempotent | backend/config/database.php:51 | a trimmed string is its own trim |
| Text.TrimEmptyIff | frontend/js/register.js:132 | the trim is empty exactly when every character is whitespace |
| Text.ContainsIff | backend/api/courses/index.php:45-49 | the substring test (`LIKE '%q%'`) holds exactly when the pattern occurs at some position |
| Text.ContainsEmpty | backend/api/courses/search.php:21 | the empty pattern occurs in every string |
| Text.RemoveAllAbsent | backend/api/courses/enroll.php:23 | `str_replace` of a pattern that does not occur leaves the string unchanged |
| Text.DecimalRoundTrip | frontend/js/student.js:710-712 | printing a natural number in decimal and reading it back gives the number |
| Text.Pad2 | frontend/js/student.js:710-712 | `padStart(2, '0')` gives at least two digits, reads back as the number, and is the plain decimal text from 10 on |
| Sorting.Sort | backend/api/quizzes/submit.php:83-84 | PHP `sort` on ids: the result is ascending and a permutation of the input |
| Sorting.SortEqualIff | backend/api/quizzes/submit.php:82-87 | two lists sort to the same list exactly when they hold the same elements the same number of times |
| Sorting.SortedUnique | backend/api/quizzes/submit.php:82-87 | a sorted list is determined by its elements |
| Sorting.SortedIds | backend/api/quizzes/submit.php:64-66 | the ids of a set in ascending order, each once, as a primary-key scan returns them |
| Sorting.SortByKey | backend/api/quizzes/questions.php:60 | `ORDER BY key ASC`: ascending by key, a permutation, and for every key its elements come in the order of the input |
| Sorting.SortByKeyTiesAscending | backend/api/quizzes/questions.php:60 | sorting an ascending list by a key leaves the elements of equal key in ascending order |
| StoreModule.Store.LookupStudent | backend/api/quizzes/submit.php:46-56 | the result is a students row of the user, or None exactly when the user has none; it changes nothing |
| StoreModule.Store.LookupTeacher | backend/api/courses/create.php:55-63 | the result is a teachers row of the user, or None exactly when the user has none; it changes nothing |
| StoreModule.Store.LookupTeacherByEmail | backend/api/assignments/create.php:50-62 | the result is a teachers row whose user has this email and role teacher, or None exactly when there is none; it changes nothing |
| Schema.StudentOfUnique | backend/api/quizzes/submit.php:46-56 | with a unique user id column, the students row of a user is the only one |
| Schema.TeacherByEmailUnique | backend/api/assignments/create.php:50-62 | with unique emails, the teacher an email names is the only one |
| QuizSubmit.QuestionIds | backend/api/quizzes/submit.php:64-66 | the ids of exactly the quiz's questions, ascending, each once |
| QuizSubmit.Grade | backend/api/quizzes/submit.php:60-94 | the grading loop returns the sum of the points over every question, answered or not, and the sum of the points the answers earn |
| QuizSubmit.SubmitQuiz | backend/api/quizzes/submit.php:10-117 | the endpoint's new store, response and result are those of `QuizSubmitSpec` |
| QuizSubmit.AppendQuizSubmission | backend/api/quizzes/submit.php:99-107 | the insert adds the row under the next id and changes nothing else |
| QuizSubmit.QuizRefusalWritesNothing | backend/api/quizzes/submit.php:15-56 | every refusal leaves the store as it was and returns no result |
| QuizSubmit.QuizRefusals | backend/api/quizzes/submit.php:21-56 | the order of the refusals: 401 without a session user, 400 without quiz_id or answers, 403 for a user with no students row |
| QuizSubmit.QuizAcceptedIff | backend/api/quizzes/submit.php:15-107 | a call is accepted exactly when it is a POST from a session user with a students row and both fields are sent; the quiz's existence is not checked |
| QuizSubmit.UnansweredEarnsNothing | backend/api/quizzes/submit.php:74 | an unanswered question adds nothing |
| QuizSubmit.ListAnswerEarnsIff | backend/api/quizzes/submit.php:82-87 | a list answer earns the points exactly when it holds every correct option id once and nothing else |
| QuizSubmit.SingleAnswerEarnsIff | backend/api/quizzes/submit.php:88-91 | a single answer earns the points exactly when it is the id of one of the question's correct options |
| QuizSubmit.EarnedWithinTotal | backend/api/quizzes/submit.php:70-92 | with points that are not negative, 0 <= earned <= total |
| QuizSubmit.AllEarnedIsTotal | backend/api/quizzes/submit.php:70-92 | when every question earns, the earned points are the total |
| QuizSubmit.NoAnswersEarnNothing | backend/api/quizzes/submit.php:74 | with no answers nothing is earned |
| QuizSubmit.PercentageBounds | backend/api/quizzes/submit.php:96 | with 0 <= earned <= total the score lies between 0 and 100, is 0 when the quiz has no points and is 100 for full marks |
| QuizSubmit.QuizSubmissionAppended | backend/api/quizzes/submit.php:99-107 | an accepted call appends exactly one row under a fresh id: the caller's student id, the quiz id, the answers as sent, the computed score and status submitted; earlier rows and the other tables are kept |
| QuizSubmit.QuizScoreBounded | backend/api/quizzes/submit.php:96-115 | with points that are not negative, the returned score is within [0, 100] and the returned points within [0, total] |
| QuizSubmit.QuizSubmitKeepsInvariants | backend/api/quizzes/submit.php:99-107 | the store's invariants are kept, and so is referential integrity when the quiz exists |
| Enroll.KeyRefusal | backend/api/courses/enroll.php:87-99 | a key-required course refuses a missing or empty key with 400 and a different key with 403; a course without the requirement refuses nothing |
| Enroll.EnrollStudent | backend/api/courses/enroll.php:10-144 | the endpoint's new store and response are those of `EnrollSpec` |
| Enroll.InsertEnrollment | backend/api/courses/enroll.php:130-136 | the insert adds the row under the next id and changes nothing else |
| Enroll.EnrollRefusalWritesNothing | backend/api/courses/enroll.php:22-127 | every refusal leaves the store as it was |
| Enroll.EnrollCallerRefusals | backend/api/courses/enroll.php:15-72 | for a POST: 401 without a token, 400 without course_id, 401 without a session user, 403 for a user who is not a student |
| Enroll.EnrollCourseChecks | backend/api/courses/enroll.php:74-136 | for a student: 404 for an unknown course, then the key test, then 403 for a full course (a limit of 0 means none), then 409 for any existing enrollment whatever its status; the call is accepted exactly when all of these pass |
| Enroll.KeylessLockedCourse | backend/api/courses/enroll.php:87-99 | a course that requires a key but stores none admits nobody |
| Enroll.EnrollInsertsOne | backend/api/courses/enroll.php:130-136 | an accepted call inserts exactly one active enrollment under a fresh id for the caller's student and the course, recording the key sent; nothing else changes |
| Enroll.EnrollKeepsOnePerPair | backend/api/courses/enroll.php:117-136 | "at most one enrollment per (student, course)" is kept by every call |
| Enroll.EnrollKeepsCapacity | backend/api/courses/enroll.php:102-136 | no call takes a course past its limit if every course started within it |
| Enroll.ActiveAfterInsert | backend/api/courses/enroll.php:102-136 | the insert adds one active enrollment to its course and none to any other |
| Enroll.EnrollKeepsInvariants | backend/api/courses/enroll.php:130-136 | the store's invariants and referential integrity are kept |
| Cascade.RemovedSplitsTables | backend/api/teachers/delete-course.php:80-146 | the declarative delete of a set of courses splits every table into the rows kept and the rows of those courses; users, students, teachers and the counter are untouched |
| Cascade.RemovedLeavesNoRows | backend/api/teachers/delete-course.php:82-146 | after the delete nothing belonging to the deleted courses remains in any table: submissions, files, assignments, options, questions, quiz submissions, quizzes, completion marks, materials, likes, posts, topics, enrollments and the course rows |
| Cascade.RemovedKeepsOtherCourses | backend/api/teachers/delete-course.php:82-146 | the rows of other courses are unchanged |
| Cascade.RemovedCompose | backend/api/admin/delete-teacher.php:70-134 | deleting one set of courses and then another is deleting both, so the order of a teacher's courses does not matter |
| Cascade.RemovedNothing | backend/api/admin/delete-teacher.php:70 | deleting no course changes nothing |
| Cascade.RemovedKeepsIntegrity | backend/api/teachers/delete-course.php:80-146 | the cascade keeps referential integrity: no surviving row points to a deleted one |
| Cascade.RemovedKeepsWellFormed | backend/api/teachers/delete-course.php:80-146 | the cascade keeps fresh ids and the unique columns |
| CascadeDelete.DeleteSubmissions | backend/api/teachers/delete-course.php:82-85 | step 1 removes exactly the submissions of the course's assignments |
| CascadeDelete.DeleteFiles | backend/api/teachers/delete-course.php:87-90 | step 2 removes exactly the files of the course's assignments |
| CascadeDelete.DeleteAssignments | backend/api/teachers/delete-course.php:92-94 | step 3 removes exactly the course's assignments |
| CascadeDelete.DeleteOptions | backend/api/teachers/delete-course.php:96-100 | step 4 removes exactly the options of the questions of the course's quizzes |
| CascadeDelete.DeleteQuestions | backend/api/teachers/delete-course.php:102-105 | step 5 removes exactly the questions of the course's quizzes |
| CascadeDelete.DeleteQuizSubmissions | backend/api/teachers/delete-course.php:107-110 | step 6 removes exactly the submissions of the course's quizzes |
| CascadeDelete.DeleteQuizzes | backend/api/teachers/delete-course.php:112-114 | step 7 removes exactly the course's quizzes |
| CascadeDelete.DeleteCompleted | backend/api/teachers/delete-course.php:116-119 | step 8 removes exactly the completion marks of the course's materials |
| CascadeDelete.DeleteMaterials | backend/api/teachers/delete-course.php:121-123 | step 9 removes exactly the course's materials |
| CascadeDelete.DeleteLikes | backend/api/teachers/delete-course.php:125-130 | step 10a removes exactly the likes on posts of the course's topics |
| CascadeDelete.DeletePosts | backend/api/teachers/delete-course.php:131-134 | step 10b removes exactly the posts of the course's topics |
| CascadeDelete.DeleteTopics | backend/api/teachers/delete-course.php:135-136 | step 10c removes exactly the course's topics |
| CascadeDelete.DeleteEnrollments | backend/api/teachers/delete-course.php:138-140 | step 11 removes exactly the course's enrollments |
| CascadeDelete.DeleteCourse | backend/api/teachers/delete-course.php:143-146 | step 12 removes exactly the course row |
| CascadeDelete.DeleteCourseRows | backend/api/teachers/delete-course.php:80-146 | the statements in the source's order, each run on the state the previous one left, remove exactly what the declarative delete of that course removes |
| CourseDelete.TeacherDeleteCourse | backend/api/teachers/delete-course.php:10-157 | the teacher route's new store and response are those of its spec function |
| CourseDelete.TeacherDeleteRefusalWritesNothing | backend/api/teachers/delete-course.php:22-75 | every refusal leaves the store as it was |
| CourseDelete.TeacherDeleteRefusals | backend/api/teachers/delete-course.php:22-75 | 401 without a token, 400 without a course_id (or with 0) or without an email, 403 for an email that is not a teacher's |
| CourseDelete.TeacherDeleteOnlyByOwner | backend/api/teachers/delete-course.php:55-146 | a call succeeds exactly when the sanitized email is a teacher's who owns the course, and then exactly the course's rows go |
| CourseDelete.TeacherDeletedMessageNamesCourse | backend/api/teachers/delete-course.php:148-152 | the success message contains the deleted course's title |
| CourseDelete.DeletedCourseIsTheOnlyCourseGone | backend/api/teachers/delete-course.php:143-146 | exactly one courses row goes: the target |
| CourseDelete.TeacherDeleteKeepsInvariants | backend/api/teachers/delete-course.php:80-146 | the teacher route keeps fresh ids, the unique columns and referential integrity |
| CourseDelete.AdminDeleteCourse | backend/api/admin/delete-course.php:10-135 | the admin route's new store and response are those of its spec function |
| CourseDelete.AdminDeleteRefusalWritesNothing | backend/api/admin/delete-course.php:21-57 | every refusal leaves the store as it was |
| CourseDelete.AdminNotFoundIffAbsent | backend/api/admin/delete-course.php:44-57 | for a request with a token and a non-zero course id, with consistent foreign keys, 404 means exactly that the course does not exist |
| CourseDelete.AdminDeleteAnyToken | backend/api/admin/delete-course.php:21-63 | the outcome depends on the token only through its presence: there is no role or ownership check |
| CourseDelete.AdminDeleteWhenFound | backend/api/admin/delete-course.php:44-125 | the admin route deletes exactly when the course exists with its teacher and user rows, and then runs the same cascade as the teacher route |
| CourseDelete.AdminDeletedMessageNames | backend/api/admin/delete-course.php:127-130 | the success message names the course title and the teacher's full name |
| CourseDelete.AdminDeleteKeepsInvariants | backend/api/admin/delete-course.php:63-125 | the admin route keeps fresh ids, the unique columns and referential integrity |
| TeacherDelete.CourseIdsOf | backend/api/admin/delete-teacher.php:63-67 | the returned ids are exactly the teacher's courses; nothing changes |
| TeacherDelete.DeleteCourses | backend/api/admin/delete-teacher.php:70-134 | the `foreach` over the fetched ids leaves the tables of the declarative delete of exactly those courses |
| TeacherDelete.RemoveTeacher | backend/api/admin/delete-teacher.php:10-152 | the endpoint's new store and response are those of its spec function |
| TeacherDelete.RemovalRefusalWritesNothing | backend/api/admin/delete-teacher.php:21-56 | every refusal leaves the store as it was |
| TeacherDelete.RemovalRefusals | backend/api/admin/delete-teacher.php:21-56 | 401 without a token, 400 without teacher_id, and, with consistent foreign keys, 404 exactly when there is no such teacher |
| TeacherDelete.TeacherRemovedGone | backend/api/admin/delete-teacher.php:132-142 | after success no course has that teacher, and both the teachers row and its users row are gone |
| TeacherDelete.TeacherRemovedCoursesCascade | backend/api/admin/delete-teacher.php:63-134 | every course of the teacher goes with all of its rows |
| TeacherDelete.TeacherRemovedKeepsOthers | backend/api/admin/delete-teacher.php:63-134 | the courses of other teachers keep all of their rows |
| TeacherDelete.TeacherWithoutCourses | backend/api/admin/delete-teacher.php:70-142 | a teacher with no courses loses only the teachers row and the users row |
| TeacherDelete.TeacherRemovedKeepsIntegrity | backend/api/admin/delete-teacher.php:63-142 | when nothing else refers to the teacher's user, referential integrity is kept |
| TeacherDelete.TeacherRemovedKeepsWellFormed | backend/api/admin/delete-teacher.php:63-142 | the delete keeps fresh ids and the unique columns |
| TeacherDelete.TeacherRemovedMessageNames | backend/api/admin/delete-teacher.php:60-147 | the success message contains the teacher's full name |
| StudentDelete.DeleteStudentRows | backend/api/admin/delete-student.php:62-92 | the eight DELETE statements in order leave the tables of the declarative removal of the student: its rows, its user's forum posts and likes, and the students and users rows |
| StudentDelete.RemoveStudent | backend/api/admin/delete-student.php:10-102 | the endpoint's new store and response are those of its spec function |
| StudentDelete.StudentRefusalWritesNothing | backend/api/admin/delete-student.php:21-56 | every refusal leaves the store as it was |
| StudentDelete.StudentRefusals | backend/api/admin/delete-student.php:21-56 | 401 without a token, 400 without student_id, and, with consistent foreign keys, 404 exactly when there is no such student |
| StudentDelete.StudentRemovedGone | backend/api/admin/delete-student.php:62-92 | no submission, quiz submission, completion mark or enrollment carries the student's id; no like or post carries the student's user id; the students and users rows are gone |
| StudentDelete.StudentRemovedKeepsOthers | backend/api/admin/delete-student.php:62-92 | the rows of other students and users are kept as they were, and forum_topics and every other table are untouched |
| StudentDelete.StudentRemovedKeepsIntegrity | backend/api/admin/delete-student.php:62-92 | when nothing else refers to the student's posts or user, referential integrity is kept |
| StudentDelete.StudentRemovalCanOrphanLike | backend/api/admin/delete-student.php:78-84 | without that condition it is not kept: another user's like on the student's post is left pointing to a deleted post |
| StudentDelete.StudentRemovedKeepsWellFormed | backend/api/admin/delete-student.php:62-92 | the delete keeps fresh ids and the unique columns |
| StudentDelete.StudentRemovedMessageNames | backend/api/admin/delete-student.php:60-97 | the success message contains the student's full name |
| AssignmentSubmit.SubmitAssignment | backend/api/assignments/submit.php:10-96 | the endpoint's new store and response are those of its spec function |
| AssignmentSubmit.UpdatePairRows | backend/api/assignments/submit.php:66-75 | the UPDATE resubmits each row of the pair with the new text and the time, and changes no other row |
| AssignmentSubmit.InsertSubmission | backend/api/assignments/submit.php:76-84 | the INSERT adds the row under the next id and changes nothing else |
| AssignmentSubmit.SubmitRefusalWritesNothing | backend/api/assignments/submit.php:21-55 | every refusal leaves the store as it was |
| AssignmentSubmit.SubmitAcceptedIff | backend/api/assignments/submit.php:21-85 | a call is accepted exactly when it is a POST from a session user with a students row and an assignment_id, whatever the assignment's existence, due date or lateness; 401 without a session, 400 without assignment_id |
| AssignmentSubmit.UpsertUpdatesInPlace | backend/api/assignments/submit.php:66-75 | an existing pair is updated in place: no row is added or removed, each row of the pair gets the new text and status submitted and keeps its grade, and every other row is unchanged |
| AssignmentSubmit.UpsertInserts | backend/api/assignments/submit.php:76-84 | a new pair gets exactly one row under a fresh id, with status submitted and no grade; earlier rows are unchanged |
| AssignmentSubmit.UpsertLeavesOneRow | backend/api/assignments/submit.php:59-85 | after the upsert the pair has exactly one row, if it had at most one before |
| AssignmentSubmit.ResubmitGradedRow | backend/api/assignments/submit.php:68-70 | resubmitting a graded row moves it back to submitted and keeps its grade |
| AssignmentSubmit.SubmitKeepsInvariants | backend/api/assignments/submit.php:59-85 | the store's invariants are kept, and so is referential integrity when the assignment exists |
| Grading.GradeSubmission | backend/api/teachers/grade.php:10-73 | the endpoint's new store and response are those of its spec function |
| Grading.GradeRefusals | backend/api/teachers/grade.php:22-37 | 401 without a token, 400 without submission_id or grade; neither writes |
| Grading.GradeSetsRow | backend/api/teachers/grade.php:43-56 | on an existing id the row gets the grade, unchecked against max_points and whoever owns the assignment, and status graded; its other fields, the other rows and the other tables stay as they were |
| Grading.GradeMissingWarns | backend/api/teachers/grade.php:58-68 | a missing id changes nothing and is answered with status warning |
| Grading.GradeIdempotent | backend/api/teachers/grade.php:47-51 | grading twice with the same value at the same time leaves the tables of one grading, and the second call answers that nothing changed |
| Grading.GradeKeepsInvariants | backend/api/teachers/grade.php:47-56 | the store's invariants and referential integrity are kept |
| ToggleUser.ToggleUserActive | backend/api/admin/toggle-user.php:10-76 | the endpoint's new store and response are those of its spec function |
| ToggleUser.ToggleRefusals | backend/api/admin/toggle-user.php:22-54 | 401 without a token, 400 for a missing or zero user_id or an action other than activate and deactivate, 404 for an unknown user; no refusal writes |
| ToggleUser.ToggleSetsFlag | backend/api/admin/toggle-user.php:58-71 | activate sets is_active to 1 and deactivate to 0, whatever the value before; the response reports the stored value; only that user's flag changes |
| ToggleUser.ToggleIdempotent | backend/api/admin/toggle-user.php:58-65 | the same action twice gives the state of one, and the second call answers as the first |
| ToggleUser.ToggledMessageNames | backend/api/admin/toggle-user.php:67-71 | the message names the user |
| ToggleUser.ToggleKeepsInvariants | backend/api/admin/toggle-user.php:58-65 | the store's invariants and referential integrity are kept |
| ToggleUser.ToggleShape | backend/api/admin/toggle-user.php:22-65 | a refusal writes nothing and a success writes only the user's flag |
| Register.MissingFieldIsFirst | backend/api/auth/register.php:45-52 | the required-field check is the first-missing scan over email, password, firstName, lastName and role, in that order |
| Register.RoleOf | backend/api/auth/register.php:68-72 | only the texts "student" and "teacher" name a role, and never admin |
| Register.RegisterUser | backend/api/auth/register.php:10-209 | the endpoint's new store, session and response are those of `RegisterSpec` |
| Register.Admit | backend/api/auth/register.php:54-177 | the checks after the required fields, on the sanitized fields, leave the store, session and response that `RegisterWith` gives |
| Register.Transaction | backend/api/auth/register.php:91-169 | the users row and then the role row are written back together, or, on a rollback, the store is left untouched |
| Register.InsertWithStudent | backend/api/auth/register.php:94-141 | the two inserts of a student account: the users row under the next id, then the students row under the one after it |
| Register.InsertWithTeacher | backend/api/auth/register.php:94-169 | the two inserts of a teacher account: the users row under the next id, then the teachers row under the one after it |
| Register.RegisterRequestChecks | backend/api/auth/register.php:12-42 | OPTIONS gets the preflight answer, any other method but POST gets 405, a body that does not decode gets 400; otherwise the handler runs on the body and its sanitized fields |
| Register.RegisterRefusalWritesNothing | backend/api/auth/register.php:19-169 | every refusal, the rolled-back ones included, leaves the store and the session as they were |
| Register.RegisterNamesFirstMissing | backend/api/auth/register.php:45-52 | a 400 for a missing field names the first of email, password, firstName, lastName and role that is missing or empty |
| Register.CheckFieldsRefusals | backend/api/auth/register.php:61-72 | an email the validator rejects and a role other than student or teacher (admin included) are refused with 400; otherwise the account takes the role named |
| Register.CheckBodyAccount | backend/api/auth/register.php:54-72 | an accepted body gives the account its sanitized fields and the password as sent |
| Register.RegisterDuplicateEmail | backend/api/auth/register.php:79-88 | an email already in use is refused with 409, whatever the role fields, and nothing is written |
| Register.RegisterRoleRollbacks | backend/api/auth/register.php:110-155 | for a student, a missing card or year gives 400 and a card in use gives 409; for a teacher, a missing specialty gives 400; each time the users row already inserted is rolled back |
| Register.RegisterCreatesAccount | backend/api/auth/register.php:94-177 | a success adds exactly one users row under the fresh id, with the sanitized fields, the role, the hashed password and the assumed `is_active` default, and exactly one students or teachers row pointing to it, with grade, phone and bio null when absent; nothing else changes, and the session holds the new user's id, role and sanitized email |
| Register.RoleStepTables | backend/api/auth/register.php:110-169 | the tables a committed transaction leaves, in terms of the tables before it |
| Register.RegisterKeepsInvariants | backend/api/auth/register.php:91-169 | registration keeps the store's invariants and referential integrity |
| Register.RoleRowKeeps | backend/api/auth/register.php:110-169 | the role row inserted for a user without one keeps the invariants |
| Register.NewUserHasNoRoleRow | backend/api/auth/register.php:94-107 | the fresh user id appears in no students or teachers row |
| Login.ActiveUserByEmail | backend/api/auth/login.php:52-58 | the found user is active and has the email; any active user with the email is found |
| Login.ActiveUserUnique | backend/api/auth/login.php:52-58 | with unique emails there is at most one such user |
| Login.LogIn | backend/api/auth/login.php:10-124 | the login's response and new session are those of its spec function, and the store is unchanged |
| Login.LookupActiveUser | backend/api/auth/login.php:52-62 | the method returns the active user with the email, as `ActiveUserByEmail` defines it |
| Login.LookupRoleInfo | backend/api/auth/login.php:52-58 | the left-joined student or teacher columns of the user, as `RoleInfoOf` gives them |
| Login.LoginRefusalKeepsSession | backend/api/auth/login.php:38-116 | a refused login leaves the session as it was |
| Login.LoginSucceedsIff | backend/api/auth/login.php:38-116 | with both fields sent, the login succeeds exactly when an active user has the sanitized email and the password verifies; 404 exactly when no active user has the email; 401 exactly when one does and the password does not verify |
| Login.InactiveCannotLogIn | backend/api/auth/login.php:58 | a deactivated account cannot log in, whatever the password |
| Login.LoginReturnsUser | backend/api/auth/login.php:74-106 | a success opens the session of an active user with the sanitized email, with that user's id, role and email, and returns that user's email and role, fullName = first_name + ' ' + last_name, the token, and for a student the studentId and card of the user's own students row; an admin gets no role columns |
| Login.RoleInfoShape | backend/api/auth/login.php:52-58 | the joined columns belong to the user's own students or teachers row |
| Login.RegisterThenLogIn | backend/api/auth/register.php:94-177 | registering and then logging in with the same email and password signs in the new account under the role it registered with, when the hash verifies the password it was made from and the new account is active by the assumed column default |
| QuizQuestions.QuestionIdsOf | backend/api/quizzes/questions.php:60 | the ids of exactly the quiz's questions, ascending |
| QuizQuestions.OptionIdsOf | backend/api/quizzes/questions.php:67-72 | the ids of exactly the question's options, ascending |
| QuizQuestions.OptionsOf | backend/api/quizzes/questions.php:67-72 | the options fetched for a question, one per option id in ascending order, each with its row |
| QuizQuestions.HandleQuestions | backend/api/quizzes/questions.php:10-202 | the endpoint's new store and response are those of its spec function |
| QuizQuestions.ListQuestions | backend/api/quizzes/questions.php:30-76 | the GET branch returns the listing of its spec function and changes nothing |
| QuizQuestions.PostQuestion | backend/api/quizzes/questions.php:79-157 | the POST branch's new store and response are those of its spec function |
| QuizQuestions.DeleteQuestion | backend/api/quizzes/questions.php:159-194 | the DELETE branch's new store and response are those of its spec function |
| QuizQuestions.AttachOptions | backend/api/quizzes/questions.php:66-73 | the loop gives each fetched question its own options, in order |
| QuizQuestions.AddQuestion | backend/api/quizzes/questions.php:110-144 | the transaction inserts the question under the next id and then its options under the ids after it, each pointing to the question |
| QuizQuestions.QuestionsGate | backend/api/quizzes/questions.php:19-23 | every method but OPTIONS answers 403 to a caller who is not a logged-in teacher, and no refusal writes |
| QuizQuestions.GetRefusals | backend/api/quizzes/questions.php:31-57 | GET answers 400 without quiz_id and 403 for a quiz outside the caller's courses; otherwise it lists, and it never writes |
| QuizQuestions.ListingIsComplete | backend/api/quizzes/questions.php:60-73 | the listing holds every question of the quiz exactly once, in order_index order with equal order_index by ascending id, each with exactly its own options |
| QuizQuestions.ListingTiesById | backend/api/quizzes/questions.php:60-73 | questions of equal order_index are listed by ascending id |
| QuizQuestions.OptionsOfAreOwn | backend/api/quizzes/questions.php:67-72 | each option listed under a question is one of its rows, and each of its rows is listed |
| QuizQuestions.NewQuestionDefaults | backend/api/quizzes/questions.php:119-126 | the defaults: multiple_choice, 1 point, no explanation, position 0, and an option incorrect unless marked |
| QuizQuestions.PostRefusals | backend/api/quizzes/questions.php:82-108 | POST answers 400 without quiz_id, question or options and 403 for a quiz outside the caller's courses; a refusal writes nothing |
| QuizQuestions.PostedAddsQuestion | backend/api/quizzes/questions.php:110-155 | the transaction adds one question under the fresh id and, under the ids after it, one option per input, all pointing to it; the new question's options are exactly those, and nothing else changes |
| QuizQuestions.PostKeepsInvariants | backend/api/quizzes/questions.php:110-155 | POST keeps the store's invariants and referential integrity |
| QuizQuestions.PostThenList | backend/api/quizzes/questions.php:60-155 | after a POST, listing the same quiz shows the new question with its options in the order they were sent |
| QuizQuestions.DeleteRemovesOne | backend/api/quizzes/questions.php:161-194 | DELETE answers 400 without an id and 403 for a question outside the caller's quizzes; otherwise it removes exactly that question row and leaves its options in place |
| QuizQuestions.DeleteOrphansOptions | backend/api/quizzes/questions.php:185-190 | removing a question keeps referential integrity exactly when it has no options |
| CourseCreate.InsertCourse | backend/api/courses/create.php:69-81 | the insert adds the row under the next id and changes nothing else |
| CourseCreate.MissingCourseField | backend/api/courses/create.php:32-39 | no field is named exactly when title, description and category are all present |
| CourseCreate.MissingCourseFieldIsFirst | backend/api/courses/create.php:32-39 | the written-out checks are the `foreach` over the three fields |
| CourseCreate.CreateCourse | backend/api/courses/create.php:10-99 | the session route's new store and response are those of its spec function |
| CourseCreate.CreateRefusalWritesNothing | backend/api/courses/create.php:22-63 | every refusal leaves the store as it was |
| CourseCreate.CreateRefusals | backend/api/courses/create.php:22-63 | 403 unless the session role is teacher, 400 naming the first missing field, 403 without a teachers row |
| CourseCreate.CreateSucceedsIff | backend/api/courses/create.php:22-81 | a call succeeds exactly for a teacher session with a teachers row and the three texts present |
| CourseCreate.CreateInsertsCourse | backend/api/courses/create.php:44-93 | a success inserts one course under a fresh id, owned by the caller's teachers row, with the body's settings and the defaults requires_key false, no key, max_enrollments 0 and is_public true; requires_key without a key is accepted; nothing else changes |
| CourseCreate.NewCourseFields | backend/api/courses/create.php:40-81 | the row the session route builds, field by field |
| CourseCreate.CreateShape | backend/api/courses/create.php:69-81 | a success is the insert of the row built from the body for the caller's teachers row |
| CourseCreate.CreatedKeyAdmits | backend/api/courses/create.php:44-45 | a course created with a non-empty key admits that key at the enrollment key test |
| CourseCreate.CreatedKeylessIsLocked | backend/api/courses/create.php:44-45 | a course created to require a key but without one refuses every enrollment request |
| CourseCreate.AddCourseKeeps | backend/api/courses/create.php:69-81 | adding a course owned by an existing teachers row keeps the store's invariants and referential integrity |
| CourseCreate.CreateKeepsInvariants | backend/api/courses/create.php:69-81 | the session route keeps the store's invariants and referential integrity |
| CourseCreate.EmailCreateCourse | backend/api/teachers/create-course.php:10-105 | the email route's new store and response are those of its spec function |
| CourseCreate.EmailRefusalWritesNothing | backend/api/teachers/create-course.php:25-69 | every refusal leaves the store as it was |
| CourseCreate.EmailRefusals | backend/api/teachers/create-course.php:25-69 | 400 for a body that does not decode, then 401 without teacher_email, then 400 without title, description or category |
| CourseCreate.EmailCreateByTeacher | backend/api/teachers/create-course.php:49-95 | a call succeeds exactly when the sanitized email is a teacher's and the three texts are present (so an email that is no teacher's gets 403); the course then belongs to that teacher, is public unless told otherwise and carries the column defaults for key and capacity |
| CourseCreate.EmailShape | backend/api/teachers/create-course.php:75-84 | a success is the insert of the row built from the body for the teacher the email names |
| CourseCreate.EmailKeepsInvariants | backend/api/teachers/create-course.php:75-84 | the email route keeps the store's invariants and referential integrity |
| ContentCreate.CheckGate | backend/api/assignments/create.php:25-78 | the shared gate of the assignment and quiz routes returns the answer of its spec function and changes nothing |
| ContentCreate.GateRules | backend/api/assignments/create.php:25-78 | 400 for a body that does not decode, 401 without teacher_email, 400 without course_id or title; after that the gate admits exactly a request whose sanitized email is a teacher's who owns the course, and refuses the rest with 403 |
| ContentCreate.GateAdmits | backend/api/quizzes/create.php:24-74 | an admitted request has a title and names an existing course |
| ContentCreate.InsertAssignment | backend/api/assignments/create.php:85-95 | the insert adds the row under the next id and changes nothing else |
| ContentCreate.CreateAssignment | backend/api/assignments/create.php:10-107 | the endpoint's new store and response are those of its spec function |
| ContentCreate.AssignmentCreated | backend/api/assignments/create.php:58-102 | a refused call writes nothing; an admitted one adds exactly one assignment under a fresh id to the course, with description and due date null and max_points 100 where the body is silent |
| ContentCreate.AssignmentKeepsInvariants | backend/api/assignments/create.php:85-95 | the store's invariants and referential integrity are kept |
| ContentCreate.InsertQuiz | backend/api/quizzes/create.php:77-88 | the insert adds the row under the next id and changes nothing else |
| ContentCreate.CreateQuiz | backend/api/quizzes/create.php:10-100 | the endpoint's new store and response are those of its spec function |
| ContentCreate.QuizCreated | backend/api/quizzes/create.php:55-95 | a refused call writes nothing; an admitted one adds exactly one quiz under a fresh id to the course, with description null by default and always practice, time limit 0, passing score 60 and unpublished, whatever the body says |
| ContentCreate.QuizKeepsInvariants | backend/api/quizzes/create.php:77-88 | the store's invariants and referential integrity are kept |
| MaterialUpload.SafeName | backend/api/teachers/upload-material.php:76 | each character outside [A-Za-z0-9.-] becomes '_', and the length is kept |
| MaterialUpload.SafeNameAt | backend/api/teachers/upload-material.php:76 | each character is kept if it is safe and becomes '_' otherwise |
| MaterialUpload.SafeNameIsSafe | backend/api/teachers/upload-material.php:76 | the stored name holds only safe characters and '_' |
| MaterialUpload.SafeNameFixesSafe | backend/api/teachers/upload-material.php:76 | a name is unchanged exactly when it holds nothing but safe characters and '_' |
| MaterialUpload.SafeNameIdempotent | backend/api/teachers/upload-material.php:76 | replacing twice is replacing once |
| MaterialUpload.LastDot | backend/api/teachers/upload-material.php:75 | the position of the last '.', if there is one, and no '.' after it |
| MaterialUpload.ExtensionIsSuffix | backend/api/teachers/upload-material.php:75 | the extension holds no '.' and is exactly the text after the name's last '.'; a name without '.' has none |
| MaterialUpload.InsertMaterial | backend/api/teachers/upload-material.php:83-98 | the insert adds the row under the next id and changes nothing else |
| MaterialUpload.Upload | backend/api/teachers/upload-material.php:10-112 | the endpoint's new store and response are those of its spec function |
| MaterialUpload.UploadRefusalWritesNothing | backend/api/teachers/upload-material.php:21-107 | every refusal, the failed move included, leaves the store as it was |
| MaterialUpload.UploadRefusals | backend/api/teachers/upload-material.php:21-107 | 403 unless the session role is teacher, 400 without a file or course_id, 403 without a teachers row or for another teacher's course, 500 when the move fails |
| MaterialUpload.UploadAddsMaterial | backend/api/teachers/upload-material.php:35-98 | a successful upload adds exactly one published material under a fresh id to the caller's own course, titled by the sanitized title or else by the file name, typed by the extension, with the file's size, stored under the upload directory, the unique prefix and the safe name |
| MaterialUpload.UploadKeepsInvariants | backend/api/teachers/upload-material.php:83-98 | the store's invariants and referential integrity are kept |
| Catalogue.Truthy | backend/api/courses/index.php:36-54 | PHP truthiness of an optional text: null and "" are false |
| Catalogue.NewestFirst | backend/api/courses/index.php:75 | the ids, each once, ordered newest first by created_at, with courses of equal created_at by ascending id |
| Catalogue.NewestTies | backend/api/courses/index.php:75 | sorting ascending ids by created_at descending keeps courses of equal created_at in ascending id order |
| Catalogue.Views | backend/api/courses/index.php:85-104 | one output row per course id, in order, each the view of that course |
| Catalogue.ListRejectsOtherVerbs | backend/api/courses/index.php:10-19 | only GET lists; OPTIONS is the preflight, any other method gets 405, and a refusal returns no rows |
| Catalogue.ListDefaults | backend/api/courses/index.php:26-28 | without paging parameters the first ten ordered rows come back, as page 1 with limit 10 |
| Catalogue.ListAnswersIff | backend/api/courses/index.php:26-116 | the listing answers exactly when the limit is positive and the offset (page - 1) x limit is not negative, and 500 otherwise |
| Catalogue.PageOfAt | backend/api/courses/index.php:76 | a page is the run of the list from its offset, at most limit long |
| Catalogue.PageViewsArePage | backend/api/courses/index.php:66-104 | the rows of a page are the ordered listing from offset on, at most limit of them, each an eligible course shown with its teacher's name, newest first |
| Catalogue.ListedRowsArePage | backend/api/courses/index.php:26-114 | a listing that answers returns the page at offset (page - 1) x limit, counts every eligible course into total and gives total_pages = ceil(total / limit) |
| Catalogue.EligibleMeans | backend/api/courses/index.php:36-54 | a course passes the filter exactly when it is public and matches each filter in force: category equal, search text in the title or description, teacher_id equal |
| Catalogue.TotalCountsListing | backend/api/courses/index.php:57-63 | total uses the same filter without the joins; with referential integrity it counts exactly the rows the listing pages through |
| Catalogue.CeilDivIsCeiling | backend/api/courses/index.php:114 | total_pages = ceil(total / limit): enough pages for every row and no empty page after the last |
| Catalogue.PagesFromSlice | backend/api/courses/index.php:28 | k consecutive pages from an offset are the slice from offset to offset + k x limit |
| Catalogue.PagesCoverListing | backend/api/courses/index.php:28-114 | pages 1 to total_pages hold every listed course exactly once, in order |
| Catalogue.FifteenCoursesTwoPages | backend/api/courses/index.php:76-114 | fifteen listed courses with limit 10 make two pages, and the second holds five |
| Catalogue.FoundRowsAreFound | backend/api/courses/search.php:28-56 | each found course comes back once, with its row as stored, newest first |
| Catalogue.SearchAnswers | backend/api/courses/search.php:28-56 | the search answers every GET with the rows of the matching courses, and count is the number of rows |
| Catalogue.SearchOnlyPublic | backend/api/courses/search.php:33-41 | a found course is public, is of the category when one is given, and has q in its title, its description or its teacher's first or last name |
| Catalogue.SearchEmptyQueryMatchesAll | backend/api/courses/search.php:21-41 | with an empty q every public course with its joins matches, and a category keeps exactly the courses of that category |
| Catalogue.SearchDefaultIsEmpty | backend/api/courses/search.php:21 | an absent q is the empty search |
| RegisterForm.Score | frontend/js/register.js:202-208 | strength is at most 4 |
| RegisterForm.ScoreCounts | frontend/js/register.js:202-208 | the score is one point for each of: length >= 8, a lowercase and an uppercase letter, a digit, a character that is not a letter or digit |
| RegisterForm.CheckPasswordStrength | frontend/js/register.js:192-221 | no label for an empty password; otherwise weak for a score up to 1, medium for 2 or 3 and strong for 4 |
| RegisterForm.StrengthLabels | frontend/js/register.js:211-220 | a non-empty password is strong exactly when it meets all four criteria and weak exactly when it meets at most one |
| RegisterForm.ScoreGrows | frontend/js/register.js:202-208 | typing more characters never lowers the score |
| RegisterForm.EmailShape | frontend/js/register.js:236-238 | `isValidEmail` holds exactly for text with no whitespace and exactly one '@', after a non-empty local part, followed by a domain with a '.' that has text on both sides |
| RegisterForm.EmailOfParts | frontend/js/register.js:236-238 | three whitespace-free segments without '@' or '.', joined as a@b.c, always pass |
| RegisterForm.EmailExamples | frontend/js/register.js:236-238 | an address with no '.' after its '@', or with a space, is refused |
| RegisterForm.Next | frontend/js/register.js:89-94 | `nextStep` moves forward by one and stays within 1 to 3 |
| RegisterForm.Prev | frontend/js/register.js:96-101 | `prevStep` moves back by one and stays within 1 to 3 |
| RegisterForm.NextPrevInverse | frontend/js/register.js:89-101 | going back undoes going forward, and the reverse, except at the ends |
| RegisterForm.ButtonsFor | frontend/js/register.js:121-123 | the previous button shows after step 1, the submit button only at step 3, and the next and submit buttons never show together |
| RegisterForm.Wizard.NextStep | frontend/js/register.js:89-94 | the step becomes `Next` of the old step, and the wizard stays within steps 1 to 3 |
| RegisterForm.Wizard.PrevStep | frontend/js/register.js:96-101 | the step becomes `Prev` of the old step, and the wizard stays within steps 1 to 3 |
| RegisterForm.CheckRequired | frontend/js/register.js:131-141 | the loop over the step's required inputs holds exactly when each has something left after `trim` |
| RegisterForm.ValidateCurrentStep | frontend/js/register.js:126-175 | a step is valid exactly when its required inputs are filled and, at step 1, a non-empty email is valid; at step 2, a non-empty password has at least 6 characters and the confirmation equals it |
| RegisterForm.MatchAgreesWithStep | frontend/js/register.js:153-234 | `validatePasswordMatch` holds for an empty confirmation, and for a non-empty one exactly when it equals the password, so a confirmation that passes step 2 is never flagged |
| StudentPage.FirstChars | frontend/js/student.js:52 | `substring(0, m)`: the first m characters, none for a negative m |
| StudentPage.TruncateKeepsShort | frontend/js/student.js:50-53 | a text that fits is returned as it is |
| StudentPage.TruncateShortens | frontend/js/student.js:50-53 | a longer text becomes a part of its first maxLength characters with no whitespace at either end, followed by "..."; just "..." for a negative maxLength |
| StudentPage.ClockReadsBack | frontend/js/student.js:710-712 | the clock (minutes padded to two digits, ':', seconds in two digits) reads back as the remaining time |
| StudentPage.TickShows | frontend/js/student.js:698-716 | the timer submits exactly when nothing remains, shows the clock of the remaining time otherwise, and turns to the warning colour in the last minute |
| StudentPage.ClockInjective | frontend/js/student.js:710-712 | different remaining times show different texts |
| StudentPage.ClockWidth | frontend/js/student.js:710-712 | under 100 minutes the display has the five characters of MM:SS |
| StudentPage.TimerSeconds | frontend/js/student.js:685-686 | the countdown starts exactly for a truthy time limit, from `ToNumber` of the limit times 60, and is NaN exactly when the limit does not read as a number |
| StudentPage.DecimalTextToNumber | frontend/js/student.js:686 | `Number` reads the decimal text of a natural number back as that number |
| StudentPage.TimerFromMinutes | frontend/js/student.js:685-686 | a limit of k minutes, sent as a number (k > 0) or as its decimal text, starts a countdown of 60 x k seconds |
| StudentPage.TimerOfOtherValues | frontend/js/student.js:685-686 | `true` starts a countdown of 60 seconds; 0, "", false and null start none |
| StudentPage.ZeroTextSubmitsAtOnce | frontend/js/student.js:685-708 | a limit sent as the text "0" starts a countdown of 0 seconds, expired at its first tick, so the quiz is submitted at once |
| StudentPage.NaNTimerNeverSubmits | frontend/js/student.js:685-719 | a truthy limit that does not read as a number gives a NaN countdown that never expires |
| StudentPage.QuizRow | frontend/js/student.js:425-439 | a start button exactly when there is no submission and the quiz is published; the completed badge exactly when there is a submission; a score only with that badge |
| StudentPage.AssignmentRow | frontend/js/student.js:465-483 | the submitted badge exactly when there is a submission, the late badge exactly when there is none and it is overdue, the pending badge otherwise; a button exactly when there is no submission and it is not overdue or late submission is allowed |
| StudentPage.StringFlagHidesQuiz | frontend/js/student.js:433 | the published flag is compared by type, so a flag that arrives as the string "1" gives no start button |
| StudentPage.Available | frontend/js/student.js:189-192 | a card is available exactly when it is in the catalogue and its id is not among the enrolled ids |
| StudentPage.AvailableWhenNoneEnrolled | frontend/js/student.js:189-192 | with nothing enrolled the whole catalogue is available |
| StudentPage.AvailableAfterEnrolling | frontend/js/student.js:189-192 | the list after enrolling in one more course is the list before with exactly that course filtered out |
| StudentPage.CollectAnswers | frontend/js/student.js:725-738 | the loop of `submitQuiz` fills the answers as its spec function defines them |
| StudentPage.CollectedKeys | frontend/js/student.js:725-738 | a question has an entry exactly when it is answered: a choice question when an option is checked, a text question when its text area is on the page |
| StudentPage.CollectedValues | frontend/js/student.js:725-738 | with distinct ids, each answered question's entry is its own answer |
| StudentPage.TextAlwaysCollected | frontend/js/student.js:725-738 | a text question on the page is always collected, even with an empty text, and a choice question with nothing checked is not |
| ScriptPage.DefaultTruncation | frontend/js/script.js:103-106 | with the default length 100 a text of at most 100 characters is kept and a longer one becomes part of its first 100 characters followed by "...", 103 characters at most |
| ScriptPage.UserInfoOf | frontend/js/script.js:124-136 | a user record is read only from a stored, non-empty entry, as the parser reads it |
| ScriptPage.CheckAuth | frontend/js/script.js:178-198 | the gate admits exactly a logged-in user (a token that is there and is not "undefined") whose record parses and whose role is in a non-empty list, or any role for an empty list; a refused visitor is sent to the login page when not logged in and to the index page otherwise; storage is cleared only when the record is missing |
| ScriptPage.ClearedThenLogin | frontend/js/script.js:168-198 | a token with no user record is cleared, so the next protected page sends the browser to the login page |
| ScriptPage.GateMonotone | frontend/js/script.js:178-198 | an empty role list admits every logged-in user whose record parses, and widening a non-empty list turns nobody away |
| ScriptPage.HomeOf | frontend/js/script.js:203-220 | each role has its own page, and no two roles share one |
| ScriptPage.RedirectBasedOnRole | frontend/js/script.js:203-220 | no redirect without a user record; student, teacher and admin go to their own pages; anything else, a record without a role included, goes to index.html |
| ScriptPage.RedirectPassesGate | frontend/js/script.js:178-220 | a user sent to their own page passes that page's gate for their role and no other role's gate |
| EnrollModal.BearerHeader | frontend/js/student.js:552-556 | the header is "Bearer " followed by the token, where an absent token reads "null" |
| EnrollModal.TypedKey | frontend/js/student.js:538-540 | the key field's value after `trim` ("" without a field), with no whitespace at either end |
| EnrollModal.DashboardConfirm | frontend/js/student.js:531-567 | the dashboard does nothing exactly when no course is selected and shows the key error exactly for a key-required course with a blank key; otherwise it sends the course id, the key only when the course needs one, and "Bearer " with whatever token is stored |
| EnrollModal.CatalogueConfirm | frontend/js/script.js:473-537 | the catalogue page decides the same way, except that without a token it sends the visitor to sign in before it looks at the key |
| EnrollModal.EnrollmentModal.Open | frontend/js/student.js:503-522 | `openEnrollmentModal` remembers the course and whether it needs a key |
| EnrollModal.EnrollmentModal.Close | frontend/js/student.js:524-529 | `closeEnrollmentModal` forgets the course |
| EnrollModal.EnrollmentModal.ConfirmOnDashboard | frontend/js/student.js:531-567 | the dashboard's confirmation decides as `DashboardConfirm` and changes nothing |
| EnrollModal.EnrollmentModal.ConfirmOnCatalogue | frontend/js/script.js:473-497 | the catalogue's confirmation decides as `CatalogueConfirm`, and closes the dialog when there is no token |
| EnrollModal.KeyGuard | frontend/js/student.js:538-548 | on both pages the key error is shown exactly when a course is selected that needs a key and the field is absent or holds nothing but whitespace (and, on the catalogue, a token is stored) |
| EnrollModal.PagesAgree | frontend/js/script.js:473-505 | with a stored token the two pages decide alike |
| EnrollModal.AsRequest | frontend/js/student.js:552-560 | the request the endpoint receives is a POST carrying the page's header, course id and key |
| EnrollModal.SentKeyUnchanged | backend/api/courses/enroll.php:39-41 | a key that got past the page's guard, with no surrounding blanks, backslash or markup, reaches the key check unchanged |
| EnrollModal.DashboardRequestNotMalformed | backend/api/courses/enroll.php:33-99 | a request the dashboard sends with a plain key is never answered 400, whatever the tables and the session, and passes the key test exactly when the key is the stored one |
| EnrollModal.NotMalformed | backend/api/courses/enroll.php:33-99 | the endpoint answers 400 only without a course id, or for a key-required course when the sanitized key is missing or empty |
| EnrollModal.CatalogueRequestNotMalformed | backend/api/courses/enroll.php:33-99 | the same holds for the catalogue page |
| EnrollModal.MissingTokenSentAsNull | frontend/js/student.js:534-556 | the dashboard sends a request even without a stored token: the header reads "Bearer null", which the endpoint takes as the token "null" |
| EnrollModal.NulKeyRefused | frontend/js/student.js:538-548 | the browser's and PHP's `trim` differ on NUL: a key of one NUL character passes the page and is answered 400 by the endpoint |

## Left out

- The database engine is abstracted. Each table is a map from id to row. One counter `nextId` hands out the ids of every table, where MySQL keeps one auto-increment counter per table; ids are therefore fresh, but not consecutive within a table.
- Row and column ordering is abstracted: `ORDER BY` listings break ties by ascending id (`Catalogue.NewestTies`, `QuizQuestions.ListingTiesById`), which fixes one of the orders the database may return. `updated_at` columns are not modelled.
- Text comparison in SQL is modelled as exact: `LIKE` is a case-sensitive substring test, and `=` on text columns (the email lookups of login and of the teacher-by-email routes) is exact equality. Under a case-insensitive collation "Bob@x" would also find "bob@x"; that case folding, and the `%` and `_` wildcards inside the search text, are not modelled.
- Register.RegisterCreatesAccount: the new users row is active because the model assumes that the `users.is_active` column defaults to 1 (`Register.ActiveByDefault`). The INSERT of registration leaves that column to the table definition, which is not part of this model.
- Login.RegisterThenLogIn: holds under the same assumption about the `users.is_active` default, since login admits only `is_active = 1`.
- The column defaults the email route of course creation leaves to the database (key and capacity) are a parameter (`ColumnDefaults`), since the table definitions are not part of this model.
- PHP `empty()` is modelled as "absent or the empty string". That `empty("0")` is also true is not modelled.
- Free-text answers in the quiz grader are compared as option ids only: a text answer never equals a correct-option list and is never one of the option ids.
- Error messages are not modelled; only success messages, the HTTP code and the status of each answer are. Of the session, `user_id`, `user_role` and `user_email` are modelled; the session `token` is not, since no endpoint of the core reads it.
- Catalogue.ListedRowsArePage: a limit that is not positive, or a negative offset, is modelled as an answer of 500 with no rows. That is what a negative limit or offset gives, since MySQL rejects it and the `PDOException` is caught. A zero limit is different: MySQL accepts `LIMIT 0`, and then `ceil($total / $limit)` throws PHP 8's `DivisionByZeroError`. `catch(Exception $e)` does not catch that error, so with `display_errors` on, the answer keeps status 200 and carries the fatal error text. The model does not capture this.
- Database failures (`PDOException`) are not modelled. Registration's explicit rollbacks are modelled; the question transaction's rollback on a database error is not.
- Password hashing and `password_verify`, `generateToken`, `uniqid`, `move_uploaded_file`, `FILTER_VALIDATE_EMAIL`, the clock (`NOW()`, `Date.now()`) and `JSON.parse` are parameters of the model, because their behaviour lies outside the platform's code.
- `mkdir` of the upload directory, file sizes and the file system are left out; the upload's `file_size` column is a parameter.
- MaterialUpload.SafeName: it replaces characters, whereas `preg_replace` without the `u` flag works on bytes. A multi-byte character therefore becomes one '_' here, not one per byte.
- A course created with `requires_key` and no key is accepted as in the source, and `CourseCreate.CreatedKeylessIsLocked` shows that nobody can then join it.
- The browser scripts: JavaScript strings are modelled as sequences of characters, not of UTF-16 code units. `null` and `undefined` texts are not modelled. The due-date comparison is a parameter (`overdue`). `parseInt` returning NaN is not modelled.
- StudentPage.TimerSeconds: JSON numbers are whole numbers here, and `Number` of a text reads only an optional sign and decimal digits. A fractional, exponent, hexadecimal or `Infinity` text, which JavaScript reads as a number, is NaN in this model.
- The loading of a quiz on the student page is not modelled. `startQuiz` (frontend/js/student.js:605-616) fetches backend/api/quizzes/questions.php, which answers 403 to anyone but a teacher (`QuizQuestions.QuestionsGate`) and sends no `quiz` entry. The page could then never reach its countdown at line 685. The timer and the collection of answers are modelled from the quiz data as the page uses it.
- DOM updates, animations, notifications, `localStorage` writes other than the session entries, `setInterval`, `fetch`/`$.ajax` and the handling of the answers the endpoints send back are left out. So are the clearing of the key input when the dialog opens, logout, `getToken`, the register form's submit handler and its terms checkbox, and the multipart form the dashboard builds for uploads.
- Dashboards, forum endpoints, the admin listings and the other read-only endpoints outside the core are not part of this model.
- Concurrency is left out: calls run one after another, so the capacity check of enrollment is proved only for sequential calls.
