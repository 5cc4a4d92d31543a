# E-learning catalogue: derived state, seeding and request rules

A model of the rule-bearing core of a Django e-learning site. It has courses, lessons, enrollments and quizzes. Signup and login forms sit on top.

The database is one `Db.Store` object. It holds one table per model, and each table is a sequence of rows. A row's primary key is its position in its table. The overridden `save` methods, `Enrollment.update_progress` and `Quiz.update_total_marks` are methods of the store that rewrite the rows they persist.

The six modules are:

- `Text`: ASCII lower-casing, character replacement, case-insensitive substring search and decimal rendering of integers.
- `Models`: the rows and the pure rules of `courses/models.py`. These are the slugs, the upload paths, an enrollment's recomputed progress and a quiz's total marks.
- `Db`: the store, its save and update operations, and lookups such as `filter(...).first()`.
- `Views`: the request handlers of `courses/views.py` that read or change the store.
- `AccountForms`: the field validators, `save` and login `clean` of `accounts/forms.py`.
- `Seed`: the demo-data command, one method per `_create_*` step plus the bulk progress pass.

Every `random.*` call becomes a parameter. A validity predicate in the `requires` clause bounds it to the range the call guarantees. The clock (`timezone.now()`) is a `Time` parameter. Authentication and the active-user check are function parameters.

Two completion thresholds are kept apart:

- `Enrollment.update_progress` marks an enrollment completed at 100 percent (`CompletionThreshold`).
- The seed command's bulk pass marks it completed at 90 percent (`SeedCompletionThreshold`).

One function, `Models.Recomputed`, takes the threshold as a parameter. `Models.ThresholdsDisagree` exhibits ten lessons with nine done, where the two thresholds disagree.

The model follows the code in two places where a reader might expect otherwise:

- `Quiz.update_total_marks` on an unsaved quiz (no primary key) does nothing. It raises no error.
- The seed command comments that `save(update_fields=["total_marks"])` bypasses the model's `save` logic. It does not: the override runs and sets the total again from the stored questions. The model does the same. It proves that the recomputed total equals the command's running `total_quiz_marks` (`Seed.CreateQuiz`, `Seed.SeededQuestionsTotal`).

## Model

| member | source | states |
|---|---|---|
| Text.LowerString | courses/models.py:34 | `str.lower()` on ASCII: same length, no upper-case letter left, and each character is lowered on its own |
| Text.Replace | courses/models.py:34 | `str.replace(a, b)` for one character: same length, no `a` left, every other character kept, every `a` became `b` |
| Text.ContainsIgnoringCase | courses/views.py:40 | `icontains`: true exactly when the lowered needle occurs at some position of the lowered text |
| Text.Decimal | courses/models.py:12 | an integer rendered in an f-string is a non-empty string of digits |
| Text.DecimalRoundTrip | courses/models.py:12 | parsing the rendered digits gives back the integer |
| Text.DecimalInjective | courses/models.py:12 | different integers render differently |
| Models.NameSlug | courses/models.py:32-35 | the Category/Lesson slug keeps the name's length, is lower-case and has no space |
| Models.CourseSlug | courses/models.py:71-74 | the Course slug keeps the title's length, is lower-case and has neither space nor `/` |
| Models.FilledSlug | courses/models.py:33 | a non-empty slug is kept as is; an empty one is replaced by the generated slug |
| Models.NameSlugIdempotent | courses/models.py:34 | deriving a slug from a slug changes nothing |
| Models.CourseSlugIdempotent | courses/models.py:73 | deriving a Course slug from a Course slug changes nothing |
| Models.LessonUploadPath | courses/models.py:11-12 | the path starts with `lessons/` and ends with the file name, with the course id and a `/` between them |
| Models.LessonUploadPathRoundTrip | courses/models.py:11-12 | course id and file name can be read back from the lesson upload path |
| Models.CertificateUploadPath | courses/models.py:15-16 | the path starts with `certificates/` and ends with `.pdf`, with the enrollment id, `_` and the username between them |
| Models.CertificateUploadPathRoundTrip | courses/models.py:15-16 | enrollment id and username can be read back from the certificate path |
| Models.LessonCount | courses/models.py:80-81 | a course's lesson count is at most the number of lessons |
| Models.CompletedCount | courses/models.py:149 | the completed lessons of a course are at most its lessons |
| Models.Percent | courses/models.py:150 | the percentage is at most 100, is the floor of 100·completed/total, and is 100 exactly when every lesson is done |
| Models.Recomputed | courses/models.py:144-154 | student and course kept; no lessons means no change; otherwise progress in 0..100; an existing `completed_at` is kept; a new one appears only on completion |
| Models.RecomputedProgressIsFloor | courses/models.py:149-150 | recomputed progress is the floor of the completed percentage |
| Models.UpdateProgressCompletedIffAllDone | courses/models.py:151 | at the 100 threshold, the enrollment is completed exactly when every lesson of the course is completed |
| Models.SeedProgressCompletedIffNinetyPercent | courses/management/commands/seed_data.py:464-467 | at the 90 threshold, the enrollment is completed exactly when 10·completed ≥ 9·total |
| Models.PercentReachesNinety | courses/management/commands/seed_data.py:464-467 | the floored percentage reaches 90 exactly when 10·completed ≥ 9·total |
| Models.ThresholdsDisagree | courses/management/commands/seed_data.py:467 | with ten lessons and nine done, the seed pass completes the enrollment and `update_progress` does not |
| Models.UniformCourseCounts | courses/models.py:145-149 | lessons all of one course count fully, and all completed count fully as completed |
| Models.CompletedAtStampedOnce | courses/models.py:152-153 | `completed_at` is stamped with `now` only on first completion; an existing stamp is never changed; an incomplete enrollment gets none |
| Models.RecomputedIndependentOfStudent | courses/models.py:107 | two enrollments in the same course get the same progress and completion, whoever the student is |
| Models.RecomputedIdempotent | courses/models.py:144-154 | recomputing a recomputed enrollment, even later, changes nothing |
| Models.MarkCompletedCounts | courses/views.py:175-176 | marking a lesson completed keeps the course's lesson count and does not lower its completed count |
| Models.MarkCompletedNeverLowersProgress | courses/views.py:175-179 | recomputed progress after marking a lesson completed is at least the progress before |
| Models.OwnedLessonCounted | courses/models.py:145 | a lesson's own course has at least one lesson |
| Models.QuestionCount | courses/models.py:185 | a quiz's question count is at most the number of questions |
| Models.QuestionsAppend | courses/models.py:175 | total marks and question count split over concatenated question lists |
| Models.NoQuestionsNoMarks | courses/models.py:175 | a quiz without questions totals 0 marks |
| Models.TotalMarksExample | courses/models.py:175 | marks 1, 2 and 3 total 6, and adding a question of 2 marks gives 8 |
| Db.EnrollmentOf | courses/views.py:167-169 | `filter(student, course).first()`: a found row matches the pair and no earlier row does; nothing is found exactly when no row matches |
| Db.EnrollmentOfIsTheOnlyOne | courses/models.py:138 | with `unique_together`, the lookup finds the one row of the pair |
| Db.PairCountMatchesLookup | courses/models.py:138 | a pair has rows exactly when the lookup finds one, and at most one row under `unique_together` |
| Db.CategoryNamed | courses/management/commands/seed_data.py:158-160 | a found category carries the name; none is found exactly when no row has the name |
| Db.Store.SaveCategory | courses/models.py:32-35 | the row is appended or replaced, with its slug filled from the name when empty; nothing else changes |
| Db.Store.SaveCourse | courses/models.py:71-74 | the row is appended or replaced, with its slug filled from the title when empty; nothing else changes |
| Db.Store.SaveLesson | courses/models.py:116-119 | the row is appended or replaced, with its slug filled from the title when empty; nothing else changes |
| Db.Store.SaveUser | accounts/forms.py:115 | `user.save()`: the user row is appended, or replaced at its primary key |
| Db.Store.GetOrCreateCategory | courses/management/commands/seed_data.py:158-160 | creates exactly when no category has the name; otherwise returns the existing one unchanged |
| Db.Store.GetOrCreateEnrollment | courses/management/commands/seed_data.py:435-444 | creates exactly when the pair has no enrollment, appending one with the defaults; otherwise returns the existing row; pairs stay unique |
| Db.Store.UpdateProgress | courses/models.py:144-154 | the enrollment becomes its recomputation at the 100 threshold against the current lessons; other rows and tables are unchanged |
| Db.Store.UpdateTotalMarks | courses/models.py:172-176 | no primary key: nothing changes; otherwise the quiz's total becomes the sum of its questions' marks |
| Db.Store.SaveQuiz | courses/models.py:178-194 | a first save keeps the given total unless questions already exist; a later save sets the total to the sum of the quiz's question marks |
| Db.Store.AddQuestion | courses/management/commands/seed_data.py:380-386 | `Question.objects.create` appends the row |
| Db.Store.AddAnswer | courses/management/commands/seed_data.py:394-399 | `Answer.objects.create` appends the row |
| Views.Keep | courses/views.py:31 | a queryset filter keeps exactly the ids that satisfy the condition, in increasing order |
| Views.ListedIffFilters | courses/views.py:26-41 | a course is listed exactly when it is published and passes every filter that was given |
| Views.CourseList | courses/views.py:24-41 | the ids listed are increasing; every listed course is published and matches category, level and case-insensitive search; every such course is listed |
| Views.FiltersCompose | courses/views.py:26-41 | applying the published, category, level and search filters one after another yields exactly the listed courses |
| Views.PublishedCourseWithSlug | courses/views.py:57 | a found course is published and has the slug; none exactly when no published course has it |
| Views.CourseDetail | courses/views.py:55-64 | 404 exactly when no published course has the slug; an enrollment is looked up only for a signed-in student and then found when one exists |
| Views.CourseLessons | courses/views.py:111-132 | login redirect for anonymous users; 404 for an unpublished course; lessons shown exactly to an enrolled student, the instructor or an admin; those shown are all of the course's lessons |
| Views.LessonsOf | courses/views.py:126 | exactly the lessons of the course |
| Views.EnrollCourse | courses/views.py:74-93 | login, method, role and 404 outcomes each exactly when their condition holds, with no enrollment written; on success the pair has exactly one enrollment and `created` tells a new one from a repeat |
| Views.EnrollTwice | courses/views.py:82-91 | enrolling twice creates one enrollment; the first call reports created, the second not |
| Views.UpdateLessonProgress | courses/views.py:159-187 | 403 for non-students and for students not enrolled in the lesson's course, with nothing changed; on success the lesson is completed and the enrollment recomputed |
| Views.CompleteLesson | courses/views.py:174-187 | the lesson is saved completed, the enrollment recomputed, and the JSON carries its progress and completion; completed exactly when every lesson is done; progress never drops |
| AccountForms.TakenByOther | accounts/forms.py:98 | true exactly when some user other than `pk` holds the value in the field |
| AccountForms.CleanEmail | accounts/forms.py:96-100 | rejects exactly when another user has the email, with the form's message; otherwise returns the input unchanged |
| AccountForms.CleanUsername | accounts/forms.py:102-106 | rejects exactly when another user has the username, with the form's message; otherwise returns the input unchanged |
| AccountForms.OwnValuesPass | accounts/forms.py:96-106 | a saved user's own email and username pass revalidation when no other user has them |
| AccountForms.ExistingValuesRejectedForNewUser | accounts/forms.py:96-106 | an unsaved user submitting an existing user's email or username is rejected |
| AccountForms.PhoneOrEmpty | accounts/forms.py:113 | a missing phone becomes `''`, a given one is kept |
| AccountForms.SaveSignup | accounts/forms.py:108-116 | email, first and last name and phone are copied from the cleaned data; the user is written only when `commit` is set |
| AccountForms.LoginCheck | accounts/forms.py:24-38 | with a field missing, no rejection and no user; with both given, rejected with the form's message exactly when authentication fails; an authenticated user is cached when allowed and refused by `confirm_login_allowed` otherwise; a cached user was authenticated and allowed |
| AccountForms.MissingFieldSkipsAuthentication | accounts/forms.py:28 | with a field missing, the outcome does not depend on the authentication backend |
| Seed.UpdateEnrollmentProgress | courses/management/commands/seed_data.py:450-472 | every enrollment becomes its recomputation at the 90 threshold; those of courses without lessons are unchanged; pairs stay unique and progress in range |
| Db.ReplacingKeepsValid | courses/management/commands/seed_data.py:466-470 | replacing an enrollment by one of the same pair with progress in range keeps the table valid |
| Seed.LookupSurvivesGrowth | courses/management/commands/seed_data.py:435 | an enrollment found before rows were appended is still found |
| Seed.LookupIgnoresOtherPairs | courses/management/commands/seed_data.py:435-444 | appending rows of other (student, course) pairs does not change whether a pair is found |
| Seed.EnrollRowsFromAbsentPicks | courses/management/commands/seed_data.py:434-446 | each row one student's picks append is `Enrollment(student, courses[p.course], p.progress, p.completed)` for a pick `p` whose pair had no enrollment |
| Seed.RowsAvoidCourse | courses/management/commands/seed_data.py:434-446 | rows appended for picks of other courses never hold the pair of a later pick |
| Seed.EnrollRowsCount | courses/management/commands/seed_data.py:434-446 | with distinct course ids, one student's picks append exactly one row per pick whose pair had no enrollment |
| Seed.EnrollRowsStep | courses/management/commands/seed_data.py:435-446 | one more pick appends its row exactly when its pair is still absent |
| Seed.EnrollRowsCoverPicks | courses/management/commands/seed_data.py:434-446 | after one student's picks every picked (student, course) pair is enrolled |
| Seed.EnrollRowsFacts | courses/management/commands/seed_data.py:434-446 | one student's rows: the table only grows, each new row comes from an absent pick, every pick is enrolled, and with distinct courses the rows number the absent picks |
| Seed.EnrollPickAt | courses/management/commands/seed_data.py:435-446 | one get_or_create appends pick `p`'s row exactly when its pair is absent, and `created` says whether it did |
| Seed.EnrollStudent | courses/management/commands/seed_data.py:434-446 | one student's picks append exactly `EnrollRows` (the rows of the picks whose pair was absent, in pick order) and `added` is their number |
| Seed.EnrollAllRowsStep | courses/management/commands/seed_data.py:429-446 | the rows of one more student are that student's `EnrollRows` against the table as it stands |
| Seed.AbsentBefore | courses/management/commands/seed_data.py:435-444 | a pair absent from a grown table was absent from the original |
| Seed.EnrollAllRowsFromAbsentPicks | courses/management/commands/seed_data.py:429-446 | each row the command appends is the row of some student's pick whose pair had no enrollment before the command ran |
| Seed.EnrollAllRowsCoverPicks | courses/management/commands/seed_data.py:429-446 | after all students every (student, picked course) pair is enrolled |
| Seed.EnrollAllRowsFacts | courses/management/commands/seed_data.py:425-448 | the enrollment table only grows, each new row is an absent pick of some student, and every picked pair is present |
| Seed.CreateEnrollments | courses/management/commands/seed_data.py:425-448 | fails exactly when there are students and fewer than two courses, changing nothing; otherwise appends exactly `EnrollAllRows` (each student's absent picks in order) and returns their number |
| Seed.SeededLessonsShape | courses/management/commands/seed_data.py:339-353 | 5 to 15 lessons of the course, ordered 1..n, only the first a preview, none of type quiz, each with its derived slug |
| Seed.LessonsAppend | courses/models.py:81 | lesson counts split over concatenated lesson lists |
| Seed.AllInCourseCounted | courses/management/commands/seed_data.py:339-354 | new lessons all of one course add their number to its count |
| Seed.SeededLessonsCounted | courses/management/commands/seed_data.py:339-354 | a course's lesson count grows by the number of lessons drawn for it |
| Seed.CreateCourseLessons | courses/management/commands/seed_data.py:340-354 | the course's seeded lessons are appended in order and their number returned |
| Seed.LessonPlanStep | courses/management/commands/seed_data.py:339-341 | the plan for each course is its seeded lessons, 5 to 15 of them |
| Seed.CreateLessons | courses/management/commands/seed_data.py:334-356 | the seeded lessons of each course are appended course by course; the returned total is the number of new rows, between 5 and 15 per course |
| Seed.GenericCategoryName | courses/management/commands/seed_data.py:167 | generic names start with `Demo Category ` |
| Seed.SeededCategoryName | courses/management/commands/seed_data.py:140-167 | every seeded name starts with `Demo ` |
| Seed.PredefinedCategoryNamesDistinct | courses/management/commands/seed_data.py:140-153 | the twelve predefined names are pairwise different |
| Seed.PredefinedNotGeneric | courses/management/commands/seed_data.py:140-153 | no predefined name equals any generic `Demo Category <n>` name |
| Seed.SeededCategoryNamesDistinct | courses/management/commands/seed_data.py:156-167 | the names given to different positions differ |
| Seed.GenericCategoryNamesDistinct | courses/management/commands/seed_data.py:167 | `Demo Category m` and `Demo Category n` differ when m and n do |
| Seed.SeededNameFree | courses/management/commands/seed_data.py:158-168 | on a store without earlier demo categories, a name not yet handed out is held by no row |
| Seed.SeededNameUnused | courses/management/commands/seed_data.py:158-170 | after the first seeded names were created, the next one is not found, so get_or_create creates it |
| Seed.CategoryStep | courses/management/commands/seed_data.py:161-162 | appending one more seeded category keeps the table an extension with derived slugs |
| Seed.SeededNamesStep | courses/management/commands/seed_data.py:161-171 | appending the next seeded name keeps the names in order |
| Seed.CreatePredefinedCategories | courses/management/commands/seed_data.py:155-162 | only new categories are collected, each with a `Demo ` name and a derived slug; on a store without demo categories all `min(count, 12)` are created with the predefined names |
| Seed.CreateGenericCategories | courses/management/commands/seed_data.py:164-171 | generic names fill up to `count`; on a store without demo categories exactly `max(count, created)` categories result, in seeded order |
| Seed.CreateCategories | courses/management/commands/seed_data.py:138-173 | only created categories are returned, appended after the old rows; on a store without demo categories exactly `max(count, 0)` are created with the seeded names |
| Seed.PredefinedCourseSeeded | courses/management/commands/seed_data.py:300-315 | a predefined course is published, uses a given instructor and category, keeps its title and has the derived slug |
| Seed.RandomCourseSeeded | courses/management/commands/seed_data.py:318-330 | an extra course is `Demo Course {i+1}`, published, with a drawn instructor and category and the derived slug |
| Seed.CoursesAppendedStep | courses/management/commands/seed_data.py:315 | appending one more seeded course keeps the table an extension of seeded courses |
| Seed.CourseTitlesStep | courses/management/commands/seed_data.py:300-330 | appending the course of the next title keeps the titles in order |
| Seed.CourseStep | courses/management/commands/seed_data.py:300-330 | both of the above for one appended course |
| Seed.CreatePredefinedCourse | courses/management/commands/seed_data.py:304-315 | appends one seeded course with the predefined title |
| Seed.CreateRandomCourse | courses/management/commands/seed_data.py:319-330 | appends one seeded course titled `Demo Course {i+1}` |
| Seed.CreatePredefinedCourses | courses/management/commands/seed_data.py:297-315 | fails, changing nothing, exactly when there are instructors but no categories; otherwise `min(10, #instructors)` courses with the predefined titles |
| Seed.CreateRandomCourses | courses/management/commands/seed_data.py:317-332 | fails, changing nothing, exactly when extra courses are due but categories or instructors are empty; otherwise `max(count, created)` courses, the extra ones titled `Demo Course {i+1}` |
| Seed.CreateCourses | courses/management/commands/seed_data.py:222-332 | fails exactly when the source's modulo or `random.choice` would raise, changing nothing; otherwise `max(min(10, #instructors), count)` published courses in order, predefined titles first |
| Seed.CorrectAnswers | courses/management/commands/seed_data.py:397 | the correct answers of a question are at most the answers |
| Seed.AnswerCount | courses/management/commands/seed_data.py:393-413 | the answers of a question are at most the answers |
| Seed.AnswersAppend | courses/management/commands/seed_data.py:393-413 | answer and correct-answer counts split over concatenated answer lists |
| Seed.NoAnswersCounted | courses/management/commands/seed_data.py:393-413 | a question without answers has none correct |
| Seed.AllOfQuestionCounted | courses/management/commands/seed_data.py:393-413 | answers all of one question add their number to its count |
| Seed.McqPrefixCorrect | courses/management/commands/seed_data.py:392-399 | among the first m options exactly one is correct when the drawn index is below m, none otherwise |
| Seed.SeededAnswersShape | courses/management/commands/seed_data.py:389-413 | answers ordered 1..k, exactly one correct; mcq has 3 or 4, true/false has exactly `True` then `False` |
| Seed.CreateAnswers | courses/management/commands/seed_data.py:389-413 | appends exactly the question's seeded answers |
| Seed.NewQuestionAnswers | courses/management/commands/seed_data.py:389-413 | answers of a new question count only for it; every other question's counts are unchanged |
| Seed.CreateQuestion | courses/management/commands/seed_data.py:379-413 | appends the seeded question and its answers: exactly one correct, 3 or 4 for mcq, 2 for true/false; other questions' counts unchanged |
| Seed.SeededQuestionsTotal | courses/management/commands/seed_data.py:378-387 | a quiz's seeded questions total the drawn marks and number as many as were drawn |
| Seed.OtherQuizzesKept | courses/management/commands/seed_data.py:380-386 | questions of a new quiz leave every other quiz's total and count unchanged |
| Seed.SeededSurvivesAppend | courses/management/commands/seed_data.py:378-413 | earlier questions keep their one-correct-answer shape when more are appended |
| Seed.CountsKeptTransitive | courses/management/commands/seed_data.py:378-413 | answer counts kept across two steps are kept across both |
| Seed.SeededQuestionsStep | courses/management/commands/seed_data.py:385-387 | question j is the j-th seeded one, and the running sum adds its marks |
| Seed.AnswersAppendedTransitive | courses/management/commands/seed_data.py:378-413 | appending answers twice is appending them once |
| Seed.CreateQuestions | courses/management/commands/seed_data.py:375-413 | appends the seeded questions in order (orders 1..n) with their answers; the running total is the sum of drawn marks; each new question has exactly one correct answer |
| Seed.LinkedAfterAppend | courses/management/commands/seed_data.py:380-381 | questions of saved quizzes and answers of saved questions keep the foreign keys valid |
| Seed.QuizzesSeededAfterAppend | courses/management/commands/seed_data.py:366-419 | one more finished quiz keeps every seeded quiz published, with 2 to 4 questions and total equal to their marks |
| Seed.StartQuiz | courses/management/commands/seed_data.py:366-372 | appends the quiz with total 0; it has no questions yet |
| Seed.FinishQuiz | courses/management/commands/seed_data.py:416-419 | the save sets the quiz's total to the local sum, which equals the sum of its questions' marks |
| Seed.CreateQuiz | courses/management/commands/seed_data.py:364-421 | appends the quiz with total equal to the drawn marks, plus its questions and answers; the result keeps every seeded quiz's total equal to the sum of its questions' marks |
| Seed.GrownTransitive | courses/management/commands/seed_data.py:362-423 | a table that only grew twice only grew |
| Seed.QuizPlanStep | courses/management/commands/seed_data.py:362-363 | the plan for each course is its seeded quizzes, 1 to 3 of them |
| Seed.MarksSumBounds | courses/management/commands/seed_data.py:375-387 | questions of 1 to 3 marks total between one and three marks per question |
| Seed.SeededQuizzesShape | courses/management/commands/seed_data.py:362-387 | one course's seeded quizzes: 1 to 3, published, of the course, titled `Quiz i+1: <title[:30]> Assessment`, 15 to 45 minutes, 2 to 12 marks |
| Seed.QuizPlanCourses | courses/management/commands/seed_data.py:361-363 | every quiz the plan creates belongs to one of the seeded courses |
| Seed.CreateCourseQuizzes | courses/management/commands/seed_data.py:363-421 | the course's table of quizzes grows by exactly its `SeededQuizzes` (quiz i titled from the course, drawn time limit, total equal to the drawn marks); earlier quizzes' totals unchanged |
| Seed.CreateQuizzes | courses/management/commands/seed_data.py:358-423 | the quiz table grows by exactly `Concat(QuizPlan(...))`, course by course, so 1 to 3 per course; every new quiz is published, with 2 to 4 questions, total equal to their marks, and answers with exactly one correct |

## Left out

- Floating point: `int((completed / total) * 100)` is IEEE double arithmetic and can fall one below the exact floor (29 of 100 gives 28). `Models.Percent` is the exact floor `(100 * completed) / total`.
- `Quiz.total_marks` is a FloatField; the model keeps it as a natural number, which is what a sum of integer marks is.
- The bare `except` in `Quiz.save` (courses/models.py:189-193): which failures it swallows cannot be read from the code, so the model always computes the sum.
- `Db.Store.SaveQuiz`: the first save's nested `update_total_marks` writes the total with `update_fields`; the model writes the whole row once.
- Partial writes with `update_fields` are modelled as whole-row writes of the same values.
- Pagination, `ordering` and `select_related` are not modelled. `Views.CourseList` returns ids in table order.
- Messages, templates, rendering, `JsonResponse` status codes beyond their outcome, redirects' URLs other than the course slug, crispy-forms layouts.
- `home`, `my_courses` and `create_course` in courses/views.py are not modelled: they only render or delegate to a form.
- `course_detail` and `course_lessons` use `get_object_or_404`. That raises on two published courses with one slug; the model takes the first, since slugs are unique in the schema.
- A category id in the query string that is not a number is not modelled: the query's category is an optional number.
- The unique-slug `IntegrityError` on saving a second row with an existing slug is not modelled.
- `created_at`, `updated_at` and `enrolled_at` (automatic timestamps) are not modelled, nor the enrollment date drawn by the seed.
- Passwords, `authenticate`, `login`/`logout` and `confirm_login_allowed` are parameters. The base `UserCreationForm` password checks are not modelled.
- The seed command's `handle`, `transaction.atomic`, argument parsing and output, and `_clean_demo_data`, `_create_instructors` and `_create_students`, are not modelled. Their effect enters as the store and the user id lists passed in.
- Db.Store.GetOrCreateCategory: returns the first category with the name. Django's `get_or_create` (courses/management/commands/seed_data.py:158-160) raises `MultipleObjectsReturned` when two categories share it, which `Category.name` allows (courses/models.py:20). The seeded names are distinct, so on a store without `Demo ` categories no lookup meets a duplicate.
- Seed.CreateCategories: the exact names are stated only for a store without `Demo ` categories (the state the clean-up step leaves). On any store it states only that new rows are appended, each with a `Demo ` name and its slug.
- Seed.CreateQuestion: its contract states answer counts (one correct, 3 or 4, or 2) rather than the exact answer rows; Seed.CreateAnswers states the exact rows.
- Quiz grading (`QuizAttempt`, `QuizAnswer`) and certificates: the code holds no logic for them beyond the upload path.
- `str.lower()` is modelled over ASCII only. Course prices are whole cents instead of `DecimalField`/float values.
- Concurrency: the read-modify-write race between two progress updates is not modelled.
- accounts/models.py, the admin, URL and course-form modules are declarations and are not part of this model.
