/** The request handlers of courses/views.py that read or change the store:
    the catalogue filter, the course page's enrollment lookup, the lesson
    page's access rule, enrolling, and marking a lesson completed. The
    signed-in user comes from the session and is an existing user. */
module Views {
  import opened Text
  import opened Models
  import opened Db

  /** `request.user`: anonymous, or the user whose id is given. */
  datatype Viewer = Anonymous | SignedIn(user: nat)

  ghost predicate KnownViewer(users: seq<User>, v: Viewer) {
    v.SignedIn? ==> v.user < |users|
  }

  predicate IsStudent(users: seq<User>, v: Viewer)
    requires KnownViewer(users, v)
  {
    v.SignedIn? && users[v.user].userType == Student
  }

  // ---------------------------------------------------------------------
  // course_list

  /** The query string: `category` (absent or empty: None), `level` and
      `search` ("" when absent or empty). */
  datatype CourseQuery = CourseQuery(category: Option<nat>, level: string, search: string)

  /** A course the catalogue must list for `q`: published, and matching every
      filter that was given. */
  ghost predicate Listed(c: Course, q: CourseQuery) {
    && c.isPublished
    && (q.category.Some? ==> c.category == q.category.value)
    && (q.level != "" ==> c.level == q.level)
    && (q.search != "" ==>
          (exists i :: OccursAt(LowerString(c.title), LowerString(q.search), i))
          || (exists i :: OccursAt(LowerString(c.description), LowerString(q.search), i)))
  }

  predicate Increasing(ids: seq<nat>) {
    forall i, j :: 0 <= i < j < |ids| ==> ids[i] < ids[j]
  }

  /** `queryset.filter(...)`: the ids that satisfy `keep`, in their order. */
  function Keep(ids: seq<nat>, keep: nat -> bool): (r: seq<nat>)
    ensures forall x :: x in r <==> x in ids && keep(x)
    ensures Increasing(ids) ==> Increasing(r)
    decreases |ids|
  {
    if ids == [] then []
    else
      var rest := Keep(ids[1..], keep);
      assert forall x :: x in ids[1..] ==> x in ids;
      if keep(ids[0]) then
        var r := [ids[0]] + rest;
        assert Increasing(ids) ==> Increasing(r) by {
          if Increasing(ids) {
            assert Increasing(ids[1..]);
            forall i, j | 0 <= i < j < |r| ensures r[i] < r[j] {
              assert r[j] == rest[j - 1] && r[j] in rest;
              var m :| 0 <= m < |ids[1..]| && ids[1..][m] == r[j];
              if i == 0 {
                assert ids[m + 1] == r[j];
              } else {
                assert r[i] == rest[i - 1];
              }
            }
          }
        }
        r
      else rest
  }

  /** The filters course_list applies one after another, each only when its
      parameter was given. */
  predicate InCategory(c: Course, q: CourseQuery) {
    q.category.Some? ==> c.category == q.category.value
  }

  predicate AtLevel(c: Course, q: CourseQuery) {
    q.level != "" ==> c.level == q.level
  }

  predicate MatchesSearch(c: Course, q: CourseQuery) {
    q.search != "" ==> ContainsIgnoringCase(c.title, q.search) || ContainsIgnoringCase(c.description, q.search)
  }

  lemma ListedIffFilters(c: Course, q: CourseQuery)
    ensures Listed(c, q) <==> c.isPublished && InCategory(c, q) && AtLevel(c, q) && MatchesSearch(c, q)
  {
  }

  /** The ids course_list renders, before pagination, for query `q`. */
  function CourseList(courses: seq<Course>, q: CourseQuery): (ids: seq<nat>)
    ensures Increasing(ids)
    ensures forall id :: id in ids ==> id < |courses| && Listed(courses[id], q)
    ensures forall id :: 0 <= id < |courses| && Listed(courses[id], q) ==> id in ids
  {
    var all := seq(|courses|, i requires 0 <= i < |courses| => i as nat);
    assert Increasing(all);
    assert forall id :: id in all <==> 0 <= id < |courses| by {
      forall id | 0 <= id < |courses| ensures id in all { assert all[id] == id; }
    }
    var published := Keep(all, (id: nat) => id < |courses| && courses[id].isPublished);
    var byCategory :=
      if q.category.Some? then Keep(published, (id: nat) => id < |courses| && courses[id].category == q.category.value)
      else published;
    var byLevel :=
      if q.level != "" then Keep(byCategory, (id: nat) => id < |courses| && courses[id].level == q.level)
      else byCategory;
    var bySearch :=
      if q.search != "" then
        Keep(byLevel, (id: nat) => id < |courses| &&
          (ContainsIgnoringCase(courses[id].title, q.search) || ContainsIgnoringCase(courses[id].description, q.search)))
      else byLevel;
    FiltersCompose(courses, q, all, published, byCategory, byLevel, bySearch);
    bySearch
  }

  /** The successive filters of course_list keep exactly the listed courses. */
  lemma FiltersCompose(courses: seq<Course>, q: CourseQuery,
                       all: seq<nat>, published: seq<nat>, byCategory: seq<nat>, byLevel: seq<nat>, bySearch: seq<nat>)
    requires forall id :: id in all <==> 0 <= id < |courses|
    requires forall id :: id in published <==> id in all && id < |courses| && courses[id].isPublished
    requires forall id :: id in byCategory <==> id in published && (id < |courses| ==> InCategory(courses[id], q))
    requires forall id :: id in byLevel <==> id in byCategory && (id < |courses| ==> AtLevel(courses[id], q))
    requires forall id :: id in bySearch <==> id in byLevel && (id < |courses| ==> MatchesSearch(courses[id], q))
    ensures forall id :: id in bySearch ==> id < |courses| && Listed(courses[id], q)
    ensures forall id :: 0 <= id < |courses| && Listed(courses[id], q) ==> id in bySearch
  {
    forall id | 0 <= id < |courses| ensures id in bySearch <==> Listed(courses[id], q) {
      ListedIffFilters(courses[id], q);
    }
  }

  // ---------------------------------------------------------------------
  // course_detail

  /** `get_object_or_404(Course, slug=slug, is_published=True)` */
  function PublishedCourseWithSlug(courses: seq<Course>, slug: string): (r: Option<nat>)
    ensures r.Some? ==> r.value < |courses| && courses[r.value].isPublished && courses[r.value].slug == slug
    ensures r.None? <==> forall j :: 0 <= j < |courses| ==> !courses[j].isPublished || courses[j].slug != slug
    decreases |courses|
  {
    if courses == [] then None
    else if courses[0].isPublished && courses[0].slug == slug then Some(0)
    else match PublishedCourseWithSlug(courses[1..], slug)
      case None => None
      case Some(i) => Some(i + 1)
  }

  datatype DetailPage = DetailNotFound | Detail(course: nat, enrollment: Option<nat>)

  /** course_detail: the page shows the viewer's enrollment only when the
      viewer is a signed-in student enrolled in the course. */
  function CourseDetail(users: seq<User>, courses: seq<Course>, es: seq<Enrollment>, v: Viewer, slug: string): (page: DetailPage)
    requires KnownViewer(users, v)
    ensures page.DetailNotFound? <==> PublishedCourseWithSlug(courses, slug).None?
    ensures page.Detail? ==> page.course < |courses| && courses[page.course].isPublished && courses[page.course].slug == slug
    ensures page.Detail? && page.enrollment.Some? ==>
      IsStudent(users, v) && page.enrollment.value < |es|
      && es[page.enrollment.value].student == v.user && es[page.enrollment.value].course == page.course
    ensures page.Detail? && IsStudent(users, v) && EnrollmentOf(es, v.user, page.course).Some? ==> page.enrollment.Some?
    ensures page.Detail? && !IsStudent(users, v) ==> page.enrollment.None?
  {
    match PublishedCourseWithSlug(courses, slug)
    case None => DetailNotFound
    case Some(c) =>
      var enrollment := if IsStudent(users, v) then EnrollmentOf(es, v.user, c) else None;
      Detail(c, enrollment)
  }

  // ---------------------------------------------------------------------
  // course_lessons

  /** `get_object_or_404(Course, id=..., is_published=True)` */
  predicate IsPublishedCourse(courses: seq<Course>, id: nat) {
    id < |courses| && courses[id].isPublished
  }

  datatype LessonsPage =
    | LessonsLoginRedirect
    | LessonsNotFound
    | EnrollFirst(slug: string)
    | AccessDenied
    | LessonsView(course: nat, lessons: seq<nat>)

  /** Who may see a published course's lessons: an enrolled student, the
      course's instructor, or an admin. */
  ghost predicate MaySeeLessons(users: seq<User>, courses: seq<Course>, es: seq<Enrollment>, user: nat, course: nat)
    requires user < |users| && course < |courses|
  {
    if users[user].userType == Student then
      exists k :: 0 <= k < |es| && es[k].student == user && es[k].course == course
    else
      user == courses[course].instructor || users[user].userType == Admin
  }

  /** course_lessons: the lessons of the course, or where the viewer is sent instead. */
  function CourseLessons(users: seq<User>, courses: seq<Course>, lessons: seq<Lesson>, es: seq<Enrollment>,
                         v: Viewer, course: nat): (page: LessonsPage)
    requires KnownViewer(users, v)
    ensures page.LessonsLoginRedirect? <==> v.Anonymous?
    ensures page.LessonsNotFound? <==> v.SignedIn? && !IsPublishedCourse(courses, course)
    ensures page.LessonsView? <==>
      v.SignedIn? && IsPublishedCourse(courses, course) && MaySeeLessons(users, courses, es, v.user, course)
    ensures page.EnrollFirst? ==> IsStudent(users, v)
    ensures page.AccessDenied? ==> !IsStudent(users, v)
    ensures page.LessonsView? ==> (page.course == course
      && forall k: nat :: k in page.lessons <==> k < |lessons| && lessons[k].course == course)
  {
    if v.Anonymous? then LessonsLoginRedirect
    else if !IsPublishedCourse(courses, course) then LessonsNotFound
    else if users[v.user].userType == Student then
      if EnrollmentOf(es, v.user, course).None? then EnrollFirst(courses[course].slug)
      else LessonsView(course, LessonsOf(lessons, course))
    else if v.user != courses[course].instructor && users[v.user].userType != Admin then AccessDenied
    else LessonsView(course, LessonsOf(lessons, course))
  }

  /** `course.lessons.all()` as lesson ids. */
  function LessonsOf(lessons: seq<Lesson>, course: nat): (ids: seq<nat>)
    ensures forall k: nat :: k in ids <==> k < |lessons| && lessons[k].course == course
  {
    var all := seq(|lessons|, i requires 0 <= i < |lessons| => i as nat);
    assert forall k :: k in all <==> 0 <= k < |lessons| by {
      forall k | 0 <= k < |lessons| ensures k in all { assert all[k] == k; }
    }
    Keep(all, (k: nat) => k < |lessons| && lessons[k].course == course)
  }

  // ---------------------------------------------------------------------
  // enroll_course

  datatype EnrollResponse =
    | EnrollLoginRedirect
    | EnrollMethodNotAllowed
    | OnlyStudents
    | EnrollNotFound
    | EnrollRedirect(slug: string, created: bool)

  /** enroll_course: a signed-in student's POST enrolls them in a published
      course once; repeating it finds the existing enrollment. */
  method EnrollCourse(db: Store, v: Viewer, isPost: bool, course: nat) returns (resp: EnrollResponse)
    requires db.Valid() && KnownViewer(db.users, v)
    modifies db
    ensures db.Valid() && db.OnlyChanged({Enrollments})
    ensures resp.EnrollLoginRedirect? <==> v.Anonymous?
    ensures resp.EnrollMethodNotAllowed? <==> v.SignedIn? && !isPost
    ensures resp.OnlyStudents? <==> v.SignedIn? && isPost && !IsStudent(db.users, v)
    ensures resp.EnrollNotFound? <==> IsStudent(db.users, v) && isPost && !IsPublishedCourse(db.courses, course)
    ensures !resp.EnrollRedirect? ==> db.enrollments == old(db.enrollments)
    ensures resp.EnrollRedirect? ==>
      && IsStudent(db.users, v) && IsPublishedCourse(db.courses, course)
      && resp.slug == db.courses[course].slug
      && PairCount(db.enrollments, v.user, course) == 1
      && (resp.created <==> EnrollmentOf(old(db.enrollments), v.user, course).None?)
      && (resp.created ==> db.enrollments == old(db.enrollments) + [Enrollment(v.user, course, 0, false, None)])
      && (!resp.created ==> db.enrollments == old(db.enrollments))
  {
    if v.Anonymous? {
      return EnrollLoginRedirect;
    }
    if !isPost {
      return EnrollMethodNotAllowed;
    }
    if db.users[v.user].userType != Student {
      return OnlyStudents;
    }
    if !IsPublishedCourse(db.courses, course) {
      return EnrollNotFound;
    }
    var id, created := db.GetOrCreateEnrollment(v.user, course, 0, false);
    PairCountMatchesLookup(db.enrollments, v.user, course);
    resp := EnrollRedirect(db.courses[course].slug, created);
  }

  /** Enrolling twice leaves one enrollment for the pair, and only the first
      call reports that it created it. */
  method EnrollTwice(db: Store, v: Viewer, course: nat) returns (first: EnrollResponse, second: EnrollResponse)
    requires db.Valid() && KnownViewer(db.users, v)
    requires IsStudent(db.users, v) && IsPublishedCourse(db.courses, course)
    requires EnrollmentOf(db.enrollments, v.user, course).None?
    modifies db
    ensures first.EnrollRedirect? && first.created
    ensures second.EnrollRedirect? && !second.created
    ensures PairCount(db.enrollments, v.user, course) == 1
    ensures db.enrollments == old(db.enrollments) + [Enrollment(v.user, course, 0, false, None)]
  {
    first := EnrollCourse(db, v, true, course);
    second := EnrollCourse(db, v, true, course);
  }

  // ---------------------------------------------------------------------
  // update_lesson_progress

  datatype ProgressResponse =
    | ProgressLoginRedirect
    | ProgressMethodNotAllowed
    | Unauthorized      // 403 {"error": "Unauthorized"}
    | LessonNotFound    // 404
    | NotEnrolled       // 403 {"error": "Not enrolled"}
    | ProgressJson(progress: int, completed: bool)

  /** update_lesson_progress: a signed-in, enrolled student's POST marks the
      lesson completed, recomputes their enrollment in the lesson's course
      and reports its progress; every other request changes nothing. */
  method UpdateLessonProgress(db: Store, v: Viewer, isPost: bool, lesson: nat, now: Time) returns (resp: ProgressResponse)
    requires db.Valid() && KnownViewer(db.users, v)
    modifies db
    ensures db.Valid() && db.OnlyChanged({Lessons, Enrollments})
    ensures resp.ProgressLoginRedirect? <==> v.Anonymous?
    ensures resp.ProgressMethodNotAllowed? <==> v.SignedIn? && !isPost
    ensures resp.Unauthorized? <==> v.SignedIn? && isPost && !IsStudent(db.users, v)
    ensures resp.LessonNotFound? <==> IsStudent(db.users, v) && isPost && lesson >= |db.lessons|
    ensures resp.NotEnrolled? <==> (IsStudent(db.users, v) && isPost && lesson < |old(db.lessons)|
      && EnrollmentOf(db.enrollments, v.user, old(db.lessons)[lesson].course).None?)
    ensures !resp.ProgressJson? ==> db.lessons == old(db.lessons) && db.enrollments == old(db.enrollments)
    ensures resp.ProgressJson? ==>
      && IsStudent(db.users, v) && lesson < |old(db.lessons)|
      && var l := old(db.lessons)[lesson];
      && var e := EnrollmentOf(old(db.enrollments), v.user, l.course);
      && e.Some?
      && db.lessons == old(db.lessons)[lesson := l.(isCompleted := true, slug := FilledSlug(l.slug, NameSlug(l.title)))]
      && db.enrollments == old(db.enrollments)[e.value :=
           Recomputed(old(db.enrollments)[e.value], db.lessons, CompletionThreshold, now)]
      && resp.progress == db.enrollments[e.value].progress
      && resp.completed == db.enrollments[e.value].isCompleted
      && (resp.completed <==> CompletedCount(db.lessons, l.course) == LessonCount(db.lessons, l.course))
      && Recomputed(old(db.enrollments)[e.value], old(db.lessons), CompletionThreshold, now).progress <= resp.progress
  {
    if v.Anonymous? {
      return ProgressLoginRedirect;
    }
    if !isPost {
      return ProgressMethodNotAllowed;
    }
    if db.users[v.user].userType != Student {
      return Unauthorized;
    }
    if lesson >= |db.lessons| {
      return LessonNotFound;
    }
    var l := db.lessons[lesson];
    var found := EnrollmentOf(db.enrollments, v.user, l.course);
    if found.None? {
      return NotEnrolled;
    }
    resp := CompleteLesson(db, lesson, found.value, now);
  }

  /** The successful path of update_lesson_progress: the lesson is saved as
      completed, the enrollment `e` in its course is recomputed, and the
      response carries the new progress. */
  method CompleteLesson(db: Store, lesson: nat, e: nat, now: Time) returns (resp: ProgressResponse)
    requires db.Valid()
    requires lesson < |db.lessons| && e < |db.enrollments|
    requires db.enrollments[e].course == db.lessons[lesson].course
    modifies db
    ensures db.Valid() && db.OnlyChanged({Lessons, Enrollments})
    ensures var l := old(db.lessons)[lesson];
      && db.lessons == old(db.lessons)[lesson := l.(isCompleted := true, slug := FilledSlug(l.slug, NameSlug(l.title)))]
      && db.enrollments == old(db.enrollments)[e := Recomputed(old(db.enrollments)[e], db.lessons, CompletionThreshold, now)]
      && resp == ProgressJson(db.enrollments[e].progress, db.enrollments[e].isCompleted)
      && (resp.completed <==> CompletedCount(db.lessons, l.course) == LessonCount(db.lessons, l.course))
      && Recomputed(old(db.enrollments)[e], old(db.lessons), CompletionThreshold, now).progress <= resp.progress
  {
    var l := db.lessons[lesson];
    ghost var before := db.lessons;
    ghost var enrollmentBefore := db.enrollments[e];
    l := l.(isCompleted := true);
    var _ := db.SaveLesson(l, Some(lesson));
    db.UpdateProgress(e, now);
    resp := ProgressJson(db.enrollments[e].progress, db.enrollments[e].isCompleted);

    OwnedLessonCounted(db.lessons, lesson);
    UpdateProgressCompletedIffAllDone(enrollmentBefore, db.lessons, now);
    OwnedLessonCounted(before, lesson);
    MarkCompletedNeverLowersProgress(enrollmentBefore, before, lesson, db.lessons[lesson], CompletionThreshold, now);
  }
}
