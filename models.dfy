/** The rows of the course catalogue (courses/models.py, accounts/models.py)
    and the rules that courses/models.py derives from them: slugs, upload
    paths, an enrollment's progress and a quiz's total marks. A row's id is
    its position in its table (see module Db). */
module Models {
  import opened Text

  /** An instant as returned by the clock; the clock itself is a parameter. */
  type Time = int

  datatype Option<T> = None | Some(value: T)

  datatype UserType = Student | Instructor | Admin

  datatype User = User(
    username: string,
    email: string,
    firstName: string,
    lastName: string,
    phone: string,
    userType: UserType)

  datatype Category = Category(name: string, slug: string, description: string)

  datatype Course = Course(
    title: string,
    slug: string,
    description: string,
    shortDescription: string,
    category: nat,
    instructor: nat,
    isPublished: bool,
    priceCents: nat,
    duration: string,
    level: string)

  datatype LessonType = Video | Pdf | TextContent | QuizContent

  /** `is_completed` is one flag per lesson, shared by every student. */
  datatype Lesson = Lesson(
    course: nat,
    title: string,
    slug: string,
    lessonType: LessonType,
    contentText: string,
    order: nat,
    duration: nat,
    isPreview: bool,
    isCompleted: bool)

  datatype Enrollment = Enrollment(
    student: nat,
    course: nat,
    progress: int,
    isCompleted: bool,
    completedAt: Option<Time>)

  datatype Quiz = Quiz(
    course: nat,
    lesson: Option<nat>,
    title: string,
    instructions: string,
    timeLimit: nat,
    totalMarks: nat,
    isPublished: bool)

  datatype QuestionType = Mcq | TrueFalse

  datatype Question = Question(quiz: nat, text: string, questionType: QuestionType, marks: nat, order: nat)

  datatype Answer = Answer(question: nat, text: string, isCorrect: bool, order: nat)

  // ---------------------------------------------------------------------
  // Slugs (Category.save, Course.save, Lesson.save)

  /** The slug Category.save and Lesson.save derive: lowercase, spaces to '-'. */
  function NameSlug(name: string): (slug: string)
    ensures |slug| == |name|
    ensures IsLowercase(slug)
    ensures forall i :: 0 <= i < |slug| ==> slug[i] != ' '
  {
    Replace(LowerString(name), ' ', '-')
  }

  /** The slug Course.save derives: as NameSlug, and '/' also becomes '-'. */
  function CourseSlug(title: string): (slug: string)
    ensures |slug| == |title|
    ensures IsLowercase(slug)
    ensures forall i :: 0 <= i < |slug| ==> slug[i] != ' ' && slug[i] != '/'
  {
    Replace(NameSlug(title), '/', '-')
  }

  /** A save keeps a non-empty slug and fills an empty one with `generated`. */
  function FilledSlug(slug: string, generated: string): (r: string)
    ensures slug != "" ==> r == slug
    ensures slug == "" ==> r == generated
  {
    if slug == "" then generated else slug
  }

  lemma NameSlugIdempotent(name: string)
    ensures NameSlug(NameSlug(name)) == NameSlug(name)
  {
    var s := NameSlug(name);
    forall i | 0 <= i < |s| ensures NameSlug(s)[i] == s[i] {
      assert Lower(s[i]) == s[i];
    }
  }

  lemma CourseSlugIdempotent(title: string)
    ensures CourseSlug(CourseSlug(title)) == CourseSlug(title)
  {
    var s := CourseSlug(title);
    forall i | 0 <= i < |s| ensures CourseSlug(s)[i] == s[i] {
      assert Lower(s[i]) == s[i];
    }
  }

  // ---------------------------------------------------------------------
  // Upload paths (get_lesson_upload_path, get_certificate_upload_path)

  const LessonDir := "lessons/"
  const CertificateDir := "certificates/"
  const PdfSuffix := ".pdf"

  /** `lessons/<course id>/<filename>`. */
  function LessonUploadPath(courseId: nat, filename: string): (path: string)
    ensures LessonDir <= path
    ensures |path| == |LessonDir| + |Decimal(courseId)| + 1 + |filename|
    ensures path[|path| - |filename|..] == filename
  {
    LessonDir + Decimal(courseId) + "/" + filename
  }

  /** Recovers the course id and the file name from a lesson upload path. */
  function ParseLessonUploadPath(path: string): (r: Option<(nat, string)>)
  {
    if !(LessonDir <= path) then None
    else
      var rest := path[|LessonDir|..];
      var k := IndexOf(rest, '/');
      if k == 0 || k == |rest| || !AllDigits(rest[..k]) then None
      else Some((ParseDecimal(rest[..k]), rest[k + 1..]))
  }

  lemma {:induction false} LessonUploadPathRoundTrip(courseId: nat, filename: string)
    ensures ParseLessonUploadPath(LessonUploadPath(courseId, filename)) == Some((courseId, filename))
  {
    var d := Decimal(courseId);
    var path := LessonUploadPath(courseId, filename);
    var rest := d + "/" + filename;
    assert path == LessonDir + rest;
    assert path[|LessonDir|..] == rest;
    DigitsThenSeparator(d, '/', filename);
    DecimalRoundTrip(courseId);
  }

  /** `certificates/<enrollment id>_<student username>.pdf`. */
  function CertificateUploadPath(enrollmentId: nat, username: string): (path: string)
    ensures CertificateDir <= path
    ensures |path| == |CertificateDir| + |Decimal(enrollmentId)| + 1 + |username| + |PdfSuffix|
    ensures path[|path| - |PdfSuffix|..] == PdfSuffix
  {
    CertificateDir + Decimal(enrollmentId) + "_" + username + PdfSuffix
  }

  /** Recovers the enrollment id and the username from a certificate path. */
  function ParseCertificateUploadPath(path: string): (r: Option<(nat, string)>)
  {
    if !(CertificateDir <= path) || |path| < |CertificateDir| + |PdfSuffix| then None
    else if path[|path| - |PdfSuffix|..] != PdfSuffix then None
    else
      var rest := path[|CertificateDir|..|path| - |PdfSuffix|];
      var k := IndexOf(rest, '_');
      if k == 0 || k == |rest| || !AllDigits(rest[..k]) then None
      else Some((ParseDecimal(rest[..k]), rest[k + 1..]))
  }

  lemma {:induction false} CertificateUploadPathRoundTrip(enrollmentId: nat, username: string)
    ensures ParseCertificateUploadPath(CertificateUploadPath(enrollmentId, username)) == Some((enrollmentId, username))
  {
    var d := Decimal(enrollmentId);
    var path := CertificateUploadPath(enrollmentId, username);
    var rest := d + "_" + username;
    assert path == CertificateDir + rest + PdfSuffix;
    assert path[|path| - |PdfSuffix|..] == PdfSuffix;
    assert path[|CertificateDir|..|path| - |PdfSuffix|] == rest;
    DigitsThenSeparator(d, '_', username);
    DecimalRoundTrip(enrollmentId);
  }

  /** A run of digits, a separator that is not a digit and a tail: the first
      separator sits right after the digits, and slicing there gives both
      parts back. */
  lemma DigitsThenSeparator(d: string, sep: char, tail: string)
    requires AllDigits(d) && !IsDigit(sep)
    ensures var s := d + [sep] + tail;
      && IndexOf(s, sep) == |d| && s[..|d|] == d && s[|d| + 1..] == tail
  {
    var s := d + [sep] + tail;
    assert forall j :: 0 <= j < |d| ==> s[j] == d[j] && s[j] != sep;
    assert s[|d|] == sep;
    assert s[..|d|] == d;
    assert s[|d| + 1..] == tail;
  }

  // ---------------------------------------------------------------------
  // Enrollment progress (Enrollment.update_progress and the seed's bulk pass)

  /** The threshold Enrollment.update_progress uses for `is_completed`. */
  const CompletionThreshold: nat := 100
  /** The threshold the seed command's bulk recompute uses instead. */
  const SeedCompletionThreshold: nat := 90

  /** `course.lessons.count()` */
  function LessonCount(lessons: seq<Lesson>, course: nat): (n: nat)
    ensures n <= |lessons|
  {
    if lessons == [] then 0
    else LessonCount(lessons[..|lessons| - 1], course) + (if lessons[|lessons| - 1].course == course then 1 else 0)
  }

  /** `course.lessons.filter(is_completed=True).count()` */
  function CompletedCount(lessons: seq<Lesson>, course: nat): (n: nat)
    ensures n <= LessonCount(lessons, course)
  {
    if lessons == [] then 0
    else
      var last := lessons[|lessons| - 1];
      CompletedCount(lessons[..|lessons| - 1], course) + (if last.course == course && last.isCompleted then 1 else 0)
  }

  /** `p` is `completed` out of `total` as a percentage rounded down. */
  predicate IsFloorPercent(p: nat, completed: nat, total: nat) {
    p * total <= 100 * completed < (p + 1) * total
  }

  /** The whole-number percentage of `completed` out of `total`, rounded down. */
  function Percent(completed: nat, total: nat): (p: nat)
    requires 0 < total && completed <= total
    ensures p <= 100
    ensures IsFloorPercent(p, completed, total)
    ensures p == 100 <==> completed == total
  {
    PercentBounds(completed, total);
    (100 * completed) / total
  }

  /** The facts about the rounded-down percentage, proved from the division
      identity. */
  lemma PercentBounds(completed: nat, total: nat)
    requires 0 < total && completed <= total
    ensures var p := (100 * completed) / total;
      && 0 <= p <= 100
      && p * total <= 100 * completed < (p + 1) * total
      && (p == 100 <==> completed == total)
  {
    var n := 100 * completed;
    var p, r := n / total, n % total;
    assert n == p * total + r && 0 <= r < total;
    assert (p + 1) * total == p * total + total;
    if p > 100 {
      MulMonotone(101, p, total);
      assert false;
    }
    if completed == total {
      if p < 100 {
        MulMonotone(p + 1, 100, total);
        assert false;
      }
    }
    if p == 100 {
      assert 100 * total <= 100 * completed;
    }
  }

  /** An enrollment after one recompute against the lesson table, with the
      given completion threshold and clock reading. */
  function Recomputed(e: Enrollment, lessons: seq<Lesson>, threshold: nat, now: Time): (r: Enrollment)
    ensures r.student == e.student && r.course == e.course
    ensures LessonCount(lessons, e.course) == 0 ==> r == e
    ensures LessonCount(lessons, e.course) > 0 ==> 0 <= r.progress <= 100
    ensures e.completedAt.Some? ==> r.completedAt == e.completedAt
    ensures r.completedAt.Some? ==> e.completedAt.Some? || r.isCompleted
  {
    var total := LessonCount(lessons, e.course);
    if total == 0 then e
    else
      var progress := Percent(CompletedCount(lessons, e.course), total);
      var done := progress >= threshold;
      e.(progress := progress,
         isCompleted := done,
         completedAt := if done && e.completedAt.None? then Some(now) else e.completedAt)
  }

  /** With lessons in the course, progress is the rounded-down percentage of
      completed lessons. */
  lemma RecomputedProgressIsFloor(e: Enrollment, lessons: seq<Lesson>, threshold: nat, now: Time)
    requires LessonCount(lessons, e.course) > 0
    ensures IsFloorPercent(Recomputed(e, lessons, threshold, now).progress,
                           CompletedCount(lessons, e.course), LessonCount(lessons, e.course))
  {
    assert Recomputed(e, lessons, threshold, now).progress
      == Percent(CompletedCount(lessons, e.course), LessonCount(lessons, e.course));
  }

  /** update_progress: `is_completed` holds exactly when every lesson of the
      course is completed. */
  lemma UpdateProgressCompletedIffAllDone(e: Enrollment, lessons: seq<Lesson>, now: Time)
    requires LessonCount(lessons, e.course) > 0
    ensures Recomputed(e, lessons, CompletionThreshold, now).isCompleted
        <==> CompletedCount(lessons, e.course) == LessonCount(lessons, e.course)
  {
  }

  /** Seed bulk pass: `is_completed` holds exactly when at least 90% of the
      course's lessons are completed. */
  lemma SeedProgressCompletedIffNinetyPercent(e: Enrollment, lessons: seq<Lesson>, now: Time)
    requires LessonCount(lessons, e.course) > 0
    ensures Recomputed(e, lessons, SeedCompletionThreshold, now).isCompleted
        <==> 10 * CompletedCount(lessons, e.course) >= 9 * LessonCount(lessons, e.course)
  {
    var c, t := CompletedCount(lessons, e.course), LessonCount(lessons, e.course);
    assert Recomputed(e, lessons, SeedCompletionThreshold, now).isCompleted <==> Percent(c, t) >= 90;
    PercentReachesNinety(c, t);
  }

  lemma PercentReachesNinety(c: nat, t: nat)
    requires 0 < t && c <= t
    ensures Percent(c, t) >= 90 <==> 10 * c >= 9 * t
  {
    FloorReachesThreshold(Percent(c, t), c, t, 90);
  }

  /** A rounded-down percentage reaches `k` exactly when the exact ratio does. */
  lemma FloorReachesThreshold(p: nat, c: nat, t: nat, k: nat)
    requires 0 < t
    requires p * t <= 100 * c < (p + 1) * t
    ensures p >= k <==> 100 * c >= k * t
  {
    if p >= k {
      MulMonotone(k, p, t);
    } else {
      MulMonotone(p + 1, k, t);
    }
  }

  lemma MulMonotone(a: nat, b: nat, t: nat)
    requires a <= b
    ensures a * t <= b * t
  {
  }

  /** The two recompute paths disagree: ten lessons with nine completed make
      the seed's pass mark the enrollment completed and update_progress not. */
  lemma ThresholdsDisagree(now: Time)
    ensures var ls := NineOfTenDone();
      var e := Enrollment(0, 0, 0, false, None);
      Recomputed(e, ls, SeedCompletionThreshold, now).isCompleted
      && !Recomputed(e, ls, CompletionThreshold, now).isCompleted
  {
    var ls := NineOfTenDone();
    UniformCourseCounts(ls, 0);
    UniformCourseCounts(ls[..9], 0);
    assert ls[..9][..|ls[..9]| - 1] == ls[..9][..8];
    assert ls[..|ls| - 1] == ls[..9];
    assert CompletedCount(ls, 0) == 9;
    SeedProgressCompletedIffNinetyPercent(Enrollment(0, 0, 0, false, None), ls, now);
  }

  /** Ten lessons of course 0, the first nine completed. */
  function NineOfTenDone(): (ls: seq<Lesson>)
    ensures |ls| == 10
    ensures forall i :: 0 <= i < 10 ==> ls[i].course == 0 && ls[i].isCompleted == (i < 9)
  {
    seq(10, (i: int) requires 0 <= i < 10 => Lesson(0, "", "", Video, "", i + 1, 0, i == 0, i < 9))
  }

  /** When every lesson belongs to `course`, it counts them all, and counts as
      completed all of them if all are completed. */
  lemma {:induction false} UniformCourseCounts(lessons: seq<Lesson>, course: nat)
    requires forall i :: 0 <= i < |lessons| ==> lessons[i].course == course
    ensures LessonCount(lessons, course) == |lessons|
    ensures (forall i :: 0 <= i < |lessons| ==> lessons[i].isCompleted) ==> CompletedCount(lessons, course) == |lessons|
    decreases |lessons|
  {
    if lessons != [] {
      UniformCourseCounts(lessons[..|lessons| - 1], course);
    }
  }

  /** `completed_at` is stamped with the clock exactly on the first recompute
      that finds the enrollment completed. */
  lemma CompletedAtStampedOnce(e: Enrollment, lessons: seq<Lesson>, threshold: nat, now: Time)
    ensures var r := Recomputed(e, lessons, threshold, now);
      (e.completedAt.None? && r.isCompleted && LessonCount(lessons, e.course) > 0 ==> r.completedAt == Some(now))
      && (e.completedAt.Some? ==> r.completedAt == e.completedAt)
      && (e.completedAt.None? && !r.isCompleted ==> r.completedAt.None?)
  {
  }

  /** Progress depends on the course alone: two enrollments in the same
      course get the same progress and completion flag, whoever the student. */
  lemma RecomputedIndependentOfStudent(e1: Enrollment, e2: Enrollment, lessons: seq<Lesson>, threshold: nat, now: Time)
    requires e1.course == e2.course
    requires LessonCount(lessons, e1.course) > 0
    ensures Recomputed(e1, lessons, threshold, now).progress == Recomputed(e2, lessons, threshold, now).progress
    ensures Recomputed(e1, lessons, threshold, now).isCompleted == Recomputed(e2, lessons, threshold, now).isCompleted
  {
  }

  /** Recomputing again without a lesson change changes nothing, whatever the
      clock then reads. */
  lemma RecomputedIdempotent(e: Enrollment, lessons: seq<Lesson>, threshold: nat, now: Time, later: Time)
    ensures var r := Recomputed(e, lessons, threshold, now);
      Recomputed(r, lessons, threshold, later) == r
  {
  }

  /** Replacing one lesson by a completed lesson of the same course keeps the
      course's lesson count and does not lower its completed count. */
  lemma {:induction false} MarkCompletedCounts(lessons: seq<Lesson>, k: nat, done: Lesson, course: nat)
    requires k < |lessons|
    requires done.course == lessons[k].course && done.isCompleted
    ensures LessonCount(lessons[k := done], course) == LessonCount(lessons, course)
    ensures CompletedCount(lessons, course) <= CompletedCount(lessons[k := done], course)
    decreases |lessons|
  {
    var marked := lessons[k := done];
    var n := |lessons| - 1;
    if k < n {
      assert marked[..n] == lessons[..n][k := done];
      MarkCompletedCounts(lessons[..n], k, done, course);
    } else {
      assert marked[..n] == lessons[..n];
    }
  }

  /** Hence marking a lesson completed never lowers the progress a recompute
      computes for any enrollment. */
  lemma MarkCompletedNeverLowersProgress(e: Enrollment, lessons: seq<Lesson>, k: nat, done: Lesson, threshold: nat, now: Time)
    requires k < |lessons|
    requires done.course == lessons[k].course && done.isCompleted
    requires LessonCount(lessons, e.course) > 0
    ensures Recomputed(e, lessons, threshold, now).progress <= Recomputed(e, lessons[k := done], threshold, now).progress
  {
    var marked := lessons[k := done];
    MarkCompletedCounts(lessons, k, done, e.course);
    var t := LessonCount(lessons, e.course);
    var c0, c1 := CompletedCount(lessons, e.course), CompletedCount(marked, e.course);
    var p0, p1 := Percent(c0, t), Percent(c1, t);
    if p1 < p0 {
      MulMonotone(p1 + 1, p0, t);
    }
  }

  /** A course that owns lesson `k` has at least one lesson. */
  lemma {:induction false} OwnedLessonCounted(lessons: seq<Lesson>, k: nat)
    requires k < |lessons|
    ensures LessonCount(lessons, lessons[k].course) > 0
    decreases |lessons|
  {
    if k < |lessons| - 1 {
      OwnedLessonCounted(lessons[..|lessons| - 1], k);
    }
  }

  // ---------------------------------------------------------------------
  // Quiz total marks

  /** `sum(q.marks for q in quiz.questions.all())` */
  function TotalMarks(questions: seq<Question>, quiz: nat): (sum: nat)
  {
    if questions == [] then 0
    else
      var last := questions[|questions| - 1];
      TotalMarks(questions[..|questions| - 1], quiz) + (if last.quiz == quiz then last.marks else 0)
  }

  /** `quiz.questions.count()` */
  function QuestionCount(questions: seq<Question>, quiz: nat): (n: nat)
    ensures n <= |questions|
  {
    if questions == [] then 0
    else QuestionCount(questions[..|questions| - 1], quiz) + (if questions[|questions| - 1].quiz == quiz then 1 else 0)
  }

  /** Totals and counts over two parts of the question table add up. */
  lemma {:induction false} QuestionsAppend(a: seq<Question>, b: seq<Question>, quiz: nat)
    ensures TotalMarks(a + b, quiz) == TotalMarks(a, quiz) + TotalMarks(b, quiz)
    ensures QuestionCount(a + b, quiz) == QuestionCount(a, quiz) + QuestionCount(b, quiz)
    decreases |b|
  {
    if b == [] {
      assert a + b == a;
    } else {
      var n := |b| - 1;
      assert (a + b)[..|a + b| - 1] == a + b[..n];
      QuestionsAppend(a, b[..n], quiz);
    }
  }

  /** A quiz that no question refers to totals zero marks. */
  lemma {:induction false} NoQuestionsNoMarks(questions: seq<Question>, quiz: nat)
    requires forall k :: 0 <= k < |questions| ==> questions[k].quiz != quiz
    ensures TotalMarks(questions, quiz) == 0 && QuestionCount(questions, quiz) == 0
    decreases |questions|
  {
    if questions != [] {
      NoQuestionsNoMarks(questions[..|questions| - 1], quiz);
    }
  }

  /** The worked example: marks 1, 2, 3 total 6; a fourth question of 2 marks
      brings the total to 8. */
  lemma TotalMarksExample(quiz: nat)
    ensures var qs := [Question(quiz, "", Mcq, 1, 1), Question(quiz, "", Mcq, 2, 2), Question(quiz, "", Mcq, 3, 3)];
      TotalMarks(qs, quiz) == 6 && TotalMarks(qs + [Question(quiz, "", TrueFalse, 2, 4)], quiz) == 8
  {
    var q1, q2, q3 := Question(quiz, "", Mcq, 1, 1), Question(quiz, "", Mcq, 2, 2), Question(quiz, "", Mcq, 3, 3);
    var q4 := Question(quiz, "", TrueFalse, 2, 4);
    assert [q1][..0] == [];
    assert TotalMarks([q1], quiz) == 1;
    assert [q1, q2][..1] == [q1];
    assert TotalMarks([q1, q2], quiz) == 3;
    assert [q1, q2, q3][..2] == [q1, q2];
    assert TotalMarks([q1, q2, q3], quiz) == 6;
    assert ([q1, q2, q3] + [q4])[..3] == [q1, q2, q3];
  }
}
