/** The database as one object: a table per model, each a sequence of rows
    whose position is the row's primary key (ids are handed out in insertion
    order and rows are never deleted here). The model classes' overridden
    `save` methods, `Enrollment.update_progress` and
    `Quiz.update_total_marks` become methods of the store that rewrite the
    rows they persist. */
module Db {
  import opened Text
  import opened Models

  datatype Table = Users | Categories | Courses | Lessons | Enrollments | Quizzes | Questions | Answers

  /** No two enrollments share a (student, course) pair (`unique_together`). */
  ghost predicate UniqueEnrollments(es: seq<Enrollment>) {
    forall i, j :: 0 <= i < j < |es| ==> es[i].student != es[j].student || es[i].course != es[j].course
  }

  ghost predicate ProgressInRange(es: seq<Enrollment>) {
    forall i :: 0 <= i < |es| ==> 0 <= es[i].progress <= 100
  }

  /** Rewriting one enrollment's progress fields, within range, keeps the
      pairs unique and every progress in range. */
  lemma ReplacingKeepsValid(es: seq<Enrollment>, i: nat, e: Enrollment)
    requires i < |es|
    requires UniqueEnrollments(es) && ProgressInRange(es)
    requires e.student == es[i].student && e.course == es[i].course && 0 <= e.progress <= 100
    ensures UniqueEnrollments(es[i := e]) && ProgressInRange(es[i := e])
  {
  }

  /** `Enrollment.objects.filter(student=..., course=...).first()`: the id of
      the first enrollment of the pair, if any. */
  function EnrollmentOf(es: seq<Enrollment>, student: nat, course: nat): (r: Option<nat>)
    ensures r.Some? ==> r.value < |es| && es[r.value].student == student && es[r.value].course == course
    ensures r.Some? ==> forall j :: 0 <= j < r.value ==> es[j].student != student || es[j].course != course
    ensures r.None? <==> forall j :: 0 <= j < |es| ==> es[j].student != student || es[j].course != course
    decreases |es|
  {
    if es == [] then None
    else if es[0].student == student && es[0].course == course then Some(0)
    else match EnrollmentOf(es[1..], student, course)
      case None => None
      case Some(i) => Some(i + 1)
  }

  /** With unique pairs, the enrollment found is the only one of its pair. */
  lemma EnrollmentOfIsTheOnlyOne(es: seq<Enrollment>, student: nat, course: nat, k: nat)
    requires UniqueEnrollments(es)
    requires k < |es| && es[k].student == student && es[k].course == course
    ensures EnrollmentOf(es, student, course) == Some(k)
  {
    var r := EnrollmentOf(es, student, course);
    assert r.Some?;
  }

  /** `Enrollment.objects.filter(student=..., course=...).count()` */
  function PairCount(es: seq<Enrollment>, student: nat, course: nat): (n: nat)
    ensures n <= |es|
  {
    if es == [] then 0
    else
      var last := es[|es| - 1];
      PairCount(es[..|es| - 1], student, course) + (if last.student == student && last.course == course then 1 else 0)
  }

  /** The pair is counted exactly when the lookup finds it; with unique
      pairs it is counted at most once. */
  lemma {:induction false} PairCountMatchesLookup(es: seq<Enrollment>, student: nat, course: nat)
    ensures PairCount(es, student, course) > 0 <==> EnrollmentOf(es, student, course).Some?
    ensures UniqueEnrollments(es) ==> PairCount(es, student, course) <= 1
    decreases |es|
  {
    if es != [] {
      var init, last := es[..|es| - 1], es[|es| - 1];
      PairCountMatchesLookup(init, student, course);
      if EnrollmentOf(init, student, course).Some? {
        var j := EnrollmentOf(init, student, course).value;
        assert es[j] == init[j];
      }
      if EnrollmentOf(es, student, course).Some? {
        var j := EnrollmentOf(es, student, course).value;
        if j < |init| {
          assert init[j] == es[j];
        }
      }
      if UniqueEnrollments(es) && last.student == student && last.course == course {
        assert UniqueEnrollments(init) by {
          forall i, j | 0 <= i < j < |init|
            ensures init[i].student != init[j].student || init[i].course != init[j].course
          {
            assert init[i] == es[i] && init[j] == es[j];
          }
        }
        forall j | 0 <= j < |init| ensures init[j].student != student || init[j].course != course {
          assert init[j] == es[j];
        }
        assert EnrollmentOf(init, student, course).None?;
      } else if UniqueEnrollments(es) {
        assert UniqueEnrollments(init) by {
          forall i, j | 0 <= i < j < |init|
            ensures init[i].student != init[j].student || init[i].course != init[j].course
          {
            assert init[i] == es[i] && init[j] == es[j];
          }
        }
      }
    }
  }

  /** `Category.objects.filter(name=...).first()` */
  function CategoryNamed(cs: seq<Category>, name: string): (r: Option<nat>)
    ensures r.Some? ==> r.value < |cs| && cs[r.value].name == name
    ensures r.None? <==> forall j :: 0 <= j < |cs| ==> cs[j].name != name
    decreases |cs|
  {
    if cs == [] then None
    else if cs[0].name == name then Some(0)
    else match CategoryNamed(cs[1..], name)
      case None => None
      case Some(i) => Some(i + 1)
  }

  class Store {
    var users: seq<User>
    var categories: seq<Category>
    var courses: seq<Course>
    var lessons: seq<Lesson>
    var enrollments: seq<Enrollment>
    var quizzes: seq<Quiz>
    var questions: seq<Question>
    var answers: seq<Answer>

    ghost predicate Valid()
      reads this
    {
      UniqueEnrollments(enrollments) && ProgressInRange(enrollments)
    }

    /** Every question belongs to a quiz that has been saved (the foreign key). */
    ghost predicate QuestionsHaveQuizzes()
      reads this
    {
      forall k :: 0 <= k < |questions| ==> questions[k].quiz < |quizzes|
    }

    /** Every table other than those in `changed` is as it was. */
    twostate predicate OnlyChanged(changed: set<Table>)
      reads this
    {
      && (Users !in changed ==> users == old(users))
      && (Categories !in changed ==> categories == old(categories))
      && (Courses !in changed ==> courses == old(courses))
      && (Lessons !in changed ==> lessons == old(lessons))
      && (Enrollments !in changed ==> enrollments == old(enrollments))
      && (Quizzes !in changed ==> quizzes == old(quizzes))
      && (Questions !in changed ==> questions == old(questions))
      && (Answers !in changed ==> answers == old(answers))
    }

    constructor ()
      ensures Valid() && QuestionsHaveQuizzes()
      ensures users == [] && categories == [] && courses == [] && lessons == []
      ensures enrollments == [] && quizzes == [] && questions == [] && answers == []
    {
      users, categories, courses, lessons := [], [], [], [];
      enrollments, quizzes, questions, answers := [], [], [], [];
    }

    /** `user.save()`: insert a new user or overwrite the saved one. */
    method SaveUser(u: User, pk: Option<nat>) returns (id: nat)
      requires pk.Some? ==> pk.value < |users|
      modifies this
      ensures OnlyChanged({Users})
      ensures pk.None? ==> id == |old(users)| && users == old(users) + [u]
      ensures pk.Some? ==> id == pk.value && users == old(users)[id := u]
    {
      if pk.None? {
        id := |users|;
        users := users + [u];
      } else {
        id := pk.value;
        users := users[id := u];
      }
    }

    /** Category.save: an empty slug is filled from the name, then the row is
        written. */
    method SaveCategory(c: Category, pk: Option<nat>) returns (id: nat)
      requires pk.Some? ==> pk.value < |categories|
      modifies this
      ensures OnlyChanged({Categories})
      ensures var row := c.(slug := FilledSlug(c.slug, NameSlug(c.name)));
        && (pk.None? ==> id == |old(categories)| && categories == old(categories) + [row])
        && (pk.Some? ==> id == pk.value && categories == old(categories)[id := row])
    {
      var row := c;
      if row.slug == "" {
        row := row.(slug := Replace(LowerString(row.name), ' ', '-'));
      }
      if pk.None? {
        id := |categories|;
        categories := categories + [row];
      } else {
        id := pk.value;
        categories := categories[id := row];
      }
    }

    /** Course.save: an empty slug is filled from the title ('/' also becomes
        '-'), then the row is written. */
    method SaveCourse(c: Course, pk: Option<nat>) returns (id: nat)
      requires pk.Some? ==> pk.value < |courses|
      modifies this
      ensures OnlyChanged({Courses})
      ensures var row := c.(slug := FilledSlug(c.slug, CourseSlug(c.title)));
        && (pk.None? ==> id == |old(courses)| && courses == old(courses) + [row])
        && (pk.Some? ==> id == pk.value && courses == old(courses)[id := row])
    {
      var row := c;
      if row.slug == "" {
        row := row.(slug := Replace(Replace(LowerString(row.title), ' ', '-'), '/', '-'));
      }
      if pk.None? {
        id := |courses|;
        courses := courses + [row];
      } else {
        id := pk.value;
        courses := courses[id := row];
      }
    }

    /** Lesson.save: an empty slug is filled from the title, then the row is
        written. */
    method SaveLesson(l: Lesson, pk: Option<nat>) returns (id: nat)
      requires pk.Some? ==> pk.value < |lessons|
      modifies this
      ensures OnlyChanged({Lessons})
      ensures var row := l.(slug := FilledSlug(l.slug, NameSlug(l.title)));
        && (pk.None? ==> id == |old(lessons)| && lessons == old(lessons) + [row])
        && (pk.Some? ==> id == pk.value && lessons == old(lessons)[id := row])
    {
      var row := l;
      if row.slug == "" {
        row := row.(slug := Replace(LowerString(row.title), ' ', '-'));
      }
      if pk.None? {
        id := |lessons|;
        lessons := lessons + [row];
      } else {
        id := pk.value;
        lessons := lessons[id := row];
      }
    }

    /** `Category.objects.get_or_create(name=..., defaults={"description": ...})` */
    method GetOrCreateCategory(name: string, description: string) returns (id: nat, created: bool)
      modifies this
      ensures OnlyChanged({Categories})
      ensures created <==> CategoryNamed(old(categories), name).None?
      ensures !created ==> categories == old(categories) && Some(id) == CategoryNamed(categories, name)
      ensures created ==> (id == |old(categories)|
        && categories == old(categories) + [Category(name, NameSlug(name), description)])
    {
      var found := CategoryNamed(categories, name);
      if found.Some? {
        id, created := found.value, false;
      } else {
        id := SaveCategory(Category(name, "", description), None);
        created := true;
      }
    }

    /** `Enrollment.objects.get_or_create(student=..., course=..., defaults=...)`:
        the existing enrollment of the pair, or a new one with the defaults. */
    method GetOrCreateEnrollment(student: nat, course: nat, progress: int, isCompleted: bool)
      returns (id: nat, created: bool)
      requires Valid()
      requires 0 <= progress <= 100
      modifies this
      ensures Valid() && OnlyChanged({Enrollments})
      ensures created <==> EnrollmentOf(old(enrollments), student, course).None?
      ensures !created ==> enrollments == old(enrollments) && Some(id) == EnrollmentOf(enrollments, student, course)
      ensures created ==> (id == |old(enrollments)|
        && enrollments == old(enrollments) + [Enrollment(student, course, progress, isCompleted, None)])
      ensures id < |enrollments| && enrollments[id].student == student && enrollments[id].course == course
    {
      var found := EnrollmentOf(enrollments, student, course);
      if found.Some? {
        id, created := found.value, false;
      } else {
        id, created := |enrollments|, true;
        enrollments := enrollments + [Enrollment(student, course, progress, isCompleted, None)];
      }
    }

    /** Enrollment.update_progress for enrollment `e`, the clock reading `now`. */
    method UpdateProgress(e: nat, now: Time)
      requires Valid()
      requires e < |enrollments|
      modifies this
      ensures Valid() && OnlyChanged({Enrollments})
      ensures enrollments == old(enrollments)[e := Recomputed(old(enrollments)[e], lessons, CompletionThreshold, now)]
    {
      var en := enrollments[e];
      var total := LessonCount(lessons, en.course);
      if total == 0 {
        return;
      }
      var completed := CompletedCount(lessons, en.course);
      en := en.(progress := (100 * completed) / total);
      en := en.(isCompleted := en.progress >= CompletionThreshold);
      if en.isCompleted && en.completedAt.None? {
        en := en.(completedAt := Some(now));
      }
      assert en == Recomputed(enrollments[e], lessons, CompletionThreshold, now);
      ReplacingKeepsValid(enrollments, e, en);
      enrollments := enrollments[e := en];
    }

    /** Quiz.update_total_marks for the quiz object whose primary key is `pk`
        (`None` for an object that was never saved). */
    method UpdateTotalMarks(pk: Option<nat>)
      requires pk.Some? ==> pk.value < |quizzes|
      modifies this
      ensures OnlyChanged({Quizzes})
      ensures pk.None? ==> quizzes == old(quizzes)
      ensures pk.Some? ==>
        quizzes == old(quizzes)[pk.value := old(quizzes)[pk.value].(totalMarks := TotalMarks(questions, pk.value))]
    {
      if pk.Some? {
        var q := quizzes[pk.value];
        q := q.(totalMarks := TotalMarks(questions, pk.value));
        quizzes := quizzes[pk.value := q];
      }
    }

    /** Quiz.save for the object `q` whose primary key is `pk`. A first save
        inserts the row as given and recomputes the total only if questions
        already refer to the new id; a later save recomputes the total. */
    method SaveQuiz(q: Quiz, pk: Option<nat>) returns (id: nat)
      requires pk.Some? ==> pk.value < |quizzes|
      modifies this
      ensures OnlyChanged({Quizzes})
      ensures pk.None? ==> (id == |old(quizzes)|
        && quizzes == old(quizzes) + [q.(totalMarks :=
             if QuestionCount(questions, id) > 0 then TotalMarks(questions, id) else q.totalMarks)])
      ensures pk.Some? ==> (id == pk.value
        && quizzes == old(quizzes)[id := q.(totalMarks := TotalMarks(questions, id))])
    {
      if pk.None? {
        id := |quizzes|;
        quizzes := quizzes + [q];
        if QuestionCount(questions, id) > 0 {
          UpdateTotalMarks(Some(id));
        }
      } else {
        id := pk.value;
        quizzes := quizzes[id := q.(totalMarks := TotalMarks(questions, id))];
      }
    }

    /** `Question.objects.create(...)` */
    method AddQuestion(q: Question) returns (id: nat)
      modifies this
      ensures OnlyChanged({Questions})
      ensures id == |old(questions)| && questions == old(questions) + [q]
    {
      id := |questions|;
      questions := questions + [q];
    }

    /** `Answer.objects.create(...)` */
    method AddAnswer(a: Answer) returns (id: nat)
      modifies this
      ensures OnlyChanged({Answers})
      ensures id == |old(answers)| && answers == old(answers) + [a]
    {
      id := |answers|;
      answers := answers + [a];
    }
  }
}
