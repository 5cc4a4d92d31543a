/** The demo-data command of courses/management/commands/seed_data.py. Each
    `_create_*` helper and the bulk progress pass is a method on the store.
    Every `random.*` call becomes a draw parameter whose range is what the
    call guarantees; a helper that raises becomes a `None` result. */
module Seed {
  import opened Text
  import opened Models
  import opened Db

  function Min(a: int, b: int): int { if a <= b then a else b }
  function Max(a: int, b: int): int { if a >= b then a else b }

  /** The concatenation of a sequence of sequences, in order. */
  function Concat<T>(ss: seq<seq<T>>): (r: seq<T>)
    decreases |ss|
  {
    if ss == [] then [] else Concat(ss[..|ss| - 1]) + ss[|ss| - 1]
  }

  lemma ConcatStep<T>(ss: seq<seq<T>>, c: nat)
    requires c < |ss|
    ensures Concat(ss[..c + 1]) == Concat(ss[..c]) + ss[c]
  {
    assert ss[..c + 1][..c] == ss[..c];
  }

  /** A table holding `base` and the first `c` groups, with group `c`
      appended, holds `base` and the first `c + 1` groups. */
  lemma AppendedGroupStep<T>(base: seq<T>, ss: seq<seq<T>>, c: nat)
    requires c < |ss|
    ensures base + Concat(ss[..c + 1]) == (base + Concat(ss[..c])) + ss[c]
  {
    ConcatStep(ss, c);
  }

  /** The same for single rows: `base` and the first `i` rows, with row `i`
      appended, are `base` and the first `i + 1` rows. */
  lemma AppendedRowStep<T>(base: seq<T>, rows: seq<T>, i: nat)
    requires i < |rows|
    ensures base + rows[..i + 1] == (base + rows[..i]) + [rows[i]]
  {
    assert rows[..i + 1] == rows[..i] + [rows[i]];
  }

  // ---------------------------------------------------------------------
  // _update_enrollment_progress

  /** `_update_enrollment_progress`: every enrollment whose course has lessons
      is recomputed with the seed's 90% threshold and saved; the others are
      skipped. The clock reading is `now`. */
  method UpdateEnrollmentProgress(db: Store, now: Time)
    requires db.Valid()
    modifies db
    ensures db.Valid() && db.OnlyChanged({Enrollments})
    ensures |db.enrollments| == |old(db.enrollments)|
    ensures forall i :: 0 <= i < |db.enrollments| ==>
      db.enrollments[i] == Recomputed(old(db.enrollments)[i], db.lessons, SeedCompletionThreshold, now)
  {
    var i := 0;
    while i < |db.enrollments|
      invariant db.Valid() && db.OnlyChanged({Enrollments})
      invariant 0 <= i <= |db.enrollments| == |old(db.enrollments)|
      invariant forall k :: 0 <= k < i ==>
        db.enrollments[k] == Recomputed(old(db.enrollments)[k], db.lessons, SeedCompletionThreshold, now)
      invariant forall k :: i <= k < |db.enrollments| ==> db.enrollments[k] == old(db.enrollments)[k]
    {
      var en := db.enrollments[i];
      var total := LessonCount(db.lessons, en.course);
      if total > 0 {
        var completed := CompletedCount(db.lessons, en.course);
        en := en.(progress := (100 * completed) / total);
        en := en.(isCompleted := en.progress >= SeedCompletionThreshold);
        if en.isCompleted && en.completedAt.None? {
          en := en.(completedAt := Some(now));
        }
        assert en == Recomputed(db.enrollments[i], db.lessons, SeedCompletionThreshold, now);
        ReplacingKeepsValid(db.enrollments, i, en);
        db.enrollments := db.enrollments[i := en];
      }
      i := i + 1;
    }
  }

  // ---------------------------------------------------------------------
  // _create_enrollments

  /** One course pick of a student: the position of the course in the list
      passed in, and the `progress` and `is_completed` defaults drawn for it. */
  datatype EnrollPick = EnrollPick(course: nat, progress: int, completed: bool)

  /** What `random.randint(2, min(8, len(courses)))`, `random.sample` and
      `random.randint(0, 100)` guarantee for one student's picks. */
  predicate ValidPicks(ps: seq<EnrollPick>, courseCount: nat) {
    && 2 <= |ps| <= Min(8, courseCount)
    && (forall p :: 0 <= p < |ps| ==> ps[p].course < courseCount && 0 <= ps[p].progress <= 100)
    && (forall p, q :: 0 <= p < q < |ps| ==> ps[p].course != ps[q].course)
  }

  /** A lookup that succeeds keeps succeeding when rows are appended. */
  lemma LookupSurvivesAppend(es: seq<Enrollment>, more: seq<Enrollment>, student: nat, course: nat)
    requires EnrollmentOf(es, student, course).Some?
    ensures EnrollmentOf(es + more, student, course).Some?
  {
    var j := EnrollmentOf(es, student, course).value;
    assert (es + more)[j] == es[j];
  }

  /** The same, for a table that grew. */
  lemma LookupSurvivesGrowth(es: seq<Enrollment>, before: seq<Enrollment>, student: nat, course: nat)
    requires Grown(es, before)
    requires EnrollmentOf(before, student, course).Some?
    ensures EnrollmentOf(es, student, course).Some?
  {
    assert es == before + es[|before|..];
    LookupSurvivesAppend(before, es[|before|..], student, course);
  }

  /** A lookup that finds nothing keeps finding nothing when only rows of
      other pairs are appended. */
  lemma LookupIgnoresOtherPairs(es: seq<Enrollment>, more: seq<Enrollment>, student: nat, course: nat)
    requires forall k :: 0 <= k < |more| ==> more[k].student != student || more[k].course != course
    ensures EnrollmentOf(es + more, student, course).None? <==> EnrollmentOf(es, student, course).None?
  {
    if EnrollmentOf(es, student, course).Some? {
      LookupSurvivesAppend(es, more, student, course);
    } else {
      forall j | 0 <= j < |es + more|
        ensures (es + more)[j].student != student || (es + more)[j].course != course
      {
        if j < |es| {
          assert (es + more)[j] == es[j];
        } else {
          assert (es + more)[j] == more[j - |es|];
        }
      }
    }
  }

  /** No two positions of `ids` hold the same id. */
  predicate Distinct(ids: seq<nat>) {
    forall i, j :: 0 <= i < j < |ids| ==> ids[i] != ids[j]
  }

  /** `row` is the enrollment get_or_create writes for `pick` when the table
      `es` has none for the student and the picked course. */
  predicate FromAbsentPick(row: Enrollment, es: seq<Enrollment>, student: nat, courses: seq<nat>, pick: EnrollPick) {
    && pick.course < |courses|
    && row == Enrollment(student, courses[pick.course], pick.progress, pick.completed, None)
    && EnrollmentOf(es, student, courses[pick.course]).None?
  }

  /** The rows get_or_create appends, pick after pick, for one student on the
      table `es`: one row with the drawn defaults for each picked course the
      student is not yet enrolled in. */
  function EnrollRows(es: seq<Enrollment>, student: nat, courses: seq<nat>, ps: seq<EnrollPick>): seq<Enrollment>
    requires forall p :: 0 <= p < |ps| ==> ps[p].course < |courses|
    decreases |ps|
  {
    if ps == [] then []
    else
      var n := |ps| - 1;
      var before := EnrollRows(es, student, courses, ps[..n]);
      var c := courses[ps[n].course];
      if EnrollmentOf(es + before, student, c).None? then
        before + [Enrollment(student, c, ps[n].progress, ps[n].completed, None)]
      else before
  }

  /** How many of the picks name a course the student is not enrolled in. */
  function AbsentPicks(es: seq<Enrollment>, student: nat, courses: seq<nat>, ps: seq<EnrollPick>): nat
    requires forall p :: 0 <= p < |ps| ==> ps[p].course < |courses|
    decreases |ps|
  {
    if ps == [] then 0
    else
      var n := |ps| - 1;
      AbsentPicks(es, student, courses, ps[..n])
        + (if EnrollmentOf(es, student, courses[ps[n].course]).None? then 1 else 0)
  }

  /** Every row of `rows` is the one written for some pick whose pair had no
      enrollment in `es`. */
  ghost predicate RowsFromAbsentPicks(rows: seq<Enrollment>, es: seq<Enrollment>, student: nat, courses: seq<nat>,
                                      ps: seq<EnrollPick>) {
    forall k :: 0 <= k < |rows| ==> exists p :: 0 <= p < |ps| && FromAbsentPick(rows[k], es, student, courses, ps[p])
  }

  /** Every appended row is the one for a pick whose pair had no enrollment. */
  lemma {:induction false} EnrollRowsFromAbsentPicks(es: seq<Enrollment>, student: nat, courses: seq<nat>, ps: seq<EnrollPick>)
    requires forall p :: 0 <= p < |ps| ==> ps[p].course < |courses|
    ensures RowsFromAbsentPicks(EnrollRows(es, student, courses, ps), es, student, courses, ps)
    decreases |ps|
  {
    if ps != [] {
      var n := |ps| - 1;
      var qs := ps[..n];
      var before := EnrollRows(es, student, courses, qs);
      EnrollRowsFromAbsentPicks(es, student, courses, qs);
      var rows := EnrollRows(es, student, courses, ps);
      forall k | 0 <= k < |rows|
        ensures exists p :: 0 <= p < |ps| && FromAbsentPick(rows[k], es, student, courses, ps[p])
      {
        if k < |before| {
          var p :| 0 <= p < |qs| && FromAbsentPick(before[k], es, student, courses, qs[p]);
          assert rows[k] == before[k] && qs[p] == ps[p];
        } else {
          var c := courses[ps[n].course];
          if EnrollmentOf(es, student, c).Some? {
            LookupSurvivesAppend(es, before, student, c);
          }
          assert FromAbsentPick(rows[k], es, student, courses, ps[n]);
        }
      }
    }
  }

  /** Rows written for picks of other courses never hold the pair
      (`student`, `c`). */
  lemma RowsAvoidCourse(rows: seq<Enrollment>, es: seq<Enrollment>, student: nat, courses: seq<nat>,
                        qs: seq<EnrollPick>, c: nat)
    requires RowsFromAbsentPicks(rows, es, student, courses, qs)
    requires forall p :: 0 <= p < |qs| && qs[p].course < |courses| ==> courses[qs[p].course] != c
    ensures forall k :: 0 <= k < |rows| ==> rows[k].student != student || rows[k].course != c
  {
    forall k | 0 <= k < |rows| ensures rows[k].student != student || rows[k].course != c {
      var p :| 0 <= p < |qs| && FromAbsentPick(rows[k], es, student, courses, qs[p]);
    }
  }

  /** With distinct course ids, get_or_create creates exactly one row per
      pick whose pair had no enrollment. */
  lemma {:induction false} EnrollRowsCount(es: seq<Enrollment>, student: nat, courses: seq<nat>, ps: seq<EnrollPick>)
    requires forall p :: 0 <= p < |ps| ==> ps[p].course < |courses|
    requires forall p, q :: 0 <= p < q < |ps| ==> ps[p].course != ps[q].course
    requires Distinct(courses)
    ensures |EnrollRows(es, student, courses, ps)| == AbsentPicks(es, student, courses, ps)
    decreases |ps|
  {
    if ps != [] {
      var n := |ps| - 1;
      var qs := ps[..n];
      assert forall p, q :: 0 <= p < q < |qs| ==> qs[p].course != qs[q].course;
      EnrollRowsCount(es, student, courses, qs);
      var before := EnrollRows(es, student, courses, qs);
      EnrollRowsFromAbsentPicks(es, student, courses, qs);
      var c := courses[ps[n].course];
      assert forall p :: 0 <= p < |qs| ==> qs[p] == ps[p];
      RowsAvoidCourse(before, es, student, courses, qs, c);
      LookupIgnoresOtherPairs(es, before, student, c);
    }
  }

  /** One more pick appends its row exactly when its pair is still absent. */
  lemma EnrollRowsStep(es: seq<Enrollment>, student: nat, courses: seq<nat>, ps: seq<EnrollPick>, p: nat)
    requires p < |ps|
    requires forall q :: 0 <= q < |ps| ==> ps[q].course < |courses|
    ensures var before := EnrollRows(es, student, courses, ps[..p]);
      var c := courses[ps[p].course];
      EnrollRows(es, student, courses, ps[..p + 1])
        == if EnrollmentOf(es + before, student, c).None?
           then before + [Enrollment(student, c, ps[p].progress, ps[p].completed, None)]
           else before
  {
    assert ps[..p + 1][..p] == ps[..p];
  }

  /** After the picks are processed, the student is enrolled in every
      picked course. */
  lemma {:induction false} EnrollRowsCoverPicks(es: seq<Enrollment>, student: nat, courses: seq<nat>, ps: seq<EnrollPick>)
    requires forall p :: 0 <= p < |ps| ==> ps[p].course < |courses|
    ensures forall q :: 0 <= q < |ps| ==>
      EnrollmentOf(es + EnrollRows(es, student, courses, ps), student, courses[ps[q].course]).Some?
    decreases |ps|
  {
    if ps != [] {
      var n := |ps| - 1;
      var qs := ps[..n];
      EnrollRowsCoverPicks(es, student, courses, qs);
      var before := EnrollRows(es, student, courses, qs);
      var rows := EnrollRows(es, student, courses, ps);
      var c := courses[ps[n].course];
      var more := rows[|before|..];
      assert rows == before + more;
      AppendAssociates(es, before, more);
      forall q | 0 <= q < |ps| ensures EnrollmentOf(es + rows, student, courses[ps[q].course]).Some? {
        if q < n {
          assert qs[q] == ps[q];
          LookupSurvivesAppend(es + before, more, student, courses[ps[q].course]);
        } else if EnrollmentOf(es + before, student, c).Some? {
          LookupSurvivesAppend(es + before, more, student, c);
        } else {
          assert (es + rows)[|es + before|] == Enrollment(student, c, ps[n].progress, ps[n].completed, None);
        }
      }
    }
  }

  /** What the rows one student's picks append give: the table only grows,
      each new row comes from a pick whose pair was absent, every picked pair
      is present afterwards, and with distinct courses the rows count the
      absent picks. */
  lemma EnrollRowsFacts(es: seq<Enrollment>, student: nat, courses: seq<nat>, ps: seq<EnrollPick>)
    requires ValidPicks(ps, |courses|)
    ensures Grown(es + EnrollRows(es, student, courses, ps), es)
    ensures RowsFromAbsentPicks(EnrollRows(es, student, courses, ps), es, student, courses, ps)
    ensures forall q :: 0 <= q < |ps| ==>
      EnrollmentOf(es + EnrollRows(es, student, courses, ps), student, courses[ps[q].course]).Some?
    ensures Distinct(courses) ==> |EnrollRows(es, student, courses, ps)| == AbsentPicks(es, student, courses, ps)
  {
    var rows := EnrollRows(es, student, courses, ps);
    assert (es + rows)[..|es|] == es;
    EnrollRowsFromAbsentPicks(es, student, courses, ps);
    EnrollRowsCoverPicks(es, student, courses, ps);
    if Distinct(courses) {
      EnrollRowsCount(es, student, courses, ps);
    }
  }

  /** One get_or_create of the inner loop of `_create_enrollments`: pick `p`
      appends its row exactly when its pair is still absent. */
  method EnrollPickAt(db: Store, student: nat, courses: seq<nat>, ps: seq<EnrollPick>, p: nat, ghost es: seq<Enrollment>)
    returns (created: bool)
    requires db.Valid()
    requires ValidPicks(ps, |courses|) && p < |ps|
    requires db.enrollments == es + EnrollRows(es, student, courses, ps[..p])
    modifies db
    ensures db.Valid() && db.OnlyChanged({Enrollments})
    ensures db.enrollments == es + EnrollRows(es, student, courses, ps[..p + 1])
    ensures |EnrollRows(es, student, courses, ps[..p + 1])|
      == |EnrollRows(es, student, courses, ps[..p])| + (if created then 1 else 0)
  {
    EnrollRowsStep(es, student, courses, ps, p);
    AppendAssociates(es, EnrollRows(es, student, courses, ps[..p]),
                     [Enrollment(student, courses[ps[p].course], ps[p].progress, ps[p].completed, None)]);
    var id;
    id, created := db.GetOrCreateEnrollment(student, courses[ps[p].course], ps[p].progress, ps[p].completed);
  }

  /** The inner loop of `_create_enrollments`: get_or_create for one student
      and each course picked for them. The new rows are exactly `EnrollRows`. */
  method EnrollStudent(db: Store, student: nat, courses: seq<nat>, ps: seq<EnrollPick>) returns (added: nat)
    requires db.Valid()
    requires ValidPicks(ps, |courses|)
    modifies db
    ensures db.Valid() && db.OnlyChanged({Enrollments})
    ensures db.enrollments == old(db.enrollments) + EnrollRows(old(db.enrollments), student, courses, ps)
    ensures added == |EnrollRows(old(db.enrollments), student, courses, ps)|
  {
    ghost var es := db.enrollments;
    added := 0;
    var p := 0;
    while p < |ps|
      invariant 0 <= p <= |ps|
      invariant db.Valid() && db.OnlyChanged({Enrollments})
      invariant db.enrollments == es + EnrollRows(es, student, courses, ps[..p])
      invariant added == |EnrollRows(es, student, courses, ps[..p])|
    {
      var created := EnrollPickAt(db, student, courses, ps, p, es);
      if created {
        added := added + 1;
      }
      p := p + 1;
    }
    assert ps[..p] == ps;
  }

  /** Every pick of every student names a course in the list. */
  predicate PicksInRange(picks: seq<seq<EnrollPick>>, courseCount: nat) {
    forall s, p :: 0 <= s < |picks| && 0 <= p < |picks[s]| ==> picks[s][p].course < courseCount
  }

  /** The rows `_create_enrollments` appends for `students` in order: each
      student's `EnrollRows`, looked up against the table as it stands when
      that student's turn comes. */
  function EnrollAllRows(es: seq<Enrollment>, students: seq<nat>, courses: seq<nat>, picks: seq<seq<EnrollPick>>)
    : seq<Enrollment>
    requires |picks| == |students|
    requires PicksInRange(picks, |courses|)
    decreases |students|
  {
    if students == [] then []
    else
      var n := |students| - 1;
      var before := EnrollAllRows(es, students[..n], courses, picks[..n]);
      assert forall p :: 0 <= p < |picks[n]| ==> picks[n][p].course < |courses|;
      before + EnrollRows(es + before, students[n], courses, picks[n])
  }

  lemma EnrollAllRowsStep(es: seq<Enrollment>, students: seq<nat>, courses: seq<nat>, picks: seq<seq<EnrollPick>>, s: nat)
    requires |picks| == |students| && s < |students|
    requires PicksInRange(picks, |courses|)
    ensures PicksInRange(picks[..s], |courses|) && PicksInRange(picks[..s + 1], |courses|)
    ensures forall p :: 0 <= p < |picks[s]| ==> picks[s][p].course < |courses|
    ensures var before := EnrollAllRows(es, students[..s], courses, picks[..s]);
      EnrollAllRows(es, students[..s + 1], courses, picks[..s + 1])
        == before + EnrollRows(es + before, students[s], courses, picks[s])
  {
    assert students[..s + 1][..s] == students[..s];
    assert picks[..s + 1][..s] == picks[..s];
  }

  /** Each new row of `_create_enrollments` is a pick of some student whose
      (student, course) pair was absent before the command ran. */
  ghost predicate AllRowsFromAbsentPicks(rows: seq<Enrollment>, es: seq<Enrollment>, students: seq<nat>,
                                         courses: seq<nat>, picks: seq<seq<EnrollPick>>) {
    forall k :: 0 <= k < |rows| ==> FromSomeAbsentPick(rows[k], es, students, courses, picks)
  }

  ghost predicate FromSomeAbsentPick(row: Enrollment, es: seq<Enrollment>, students: seq<nat>,
                                     courses: seq<nat>, picks: seq<seq<EnrollPick>>) {
    exists s, p :: 0 <= s < |students| && s < |picks| && 0 <= p < |picks[s]| &&
      FromAbsentPick(row, es, students[s], courses, picks[s][p])
  }

  /** A pair absent from a grown table was absent from the original one. */
  lemma AbsentBefore(es: seq<Enrollment>, more: seq<Enrollment>, row: Enrollment, student: nat,
                     courses: seq<nat>, pick: EnrollPick)
    requires FromAbsentPick(row, es + more, student, courses, pick)
    ensures FromAbsentPick(row, es, student, courses, pick)
  {
    if EnrollmentOf(es, student, courses[pick.course]).Some? {
      LookupSurvivesAppend(es, more, student, courses[pick.course]);
    }
  }

  lemma {:induction false} EnrollAllRowsFromAbsentPicks(es: seq<Enrollment>, students: seq<nat>, courses: seq<nat>,
                                                        picks: seq<seq<EnrollPick>>)
    requires |picks| == |students|
    requires PicksInRange(picks, |courses|)
    ensures AllRowsFromAbsentPicks(EnrollAllRows(es, students, courses, picks), es, students, courses, picks)
    decreases |students|
  {
    if students != [] {
      var n := |students| - 1;
      EnrollAllRowsStep(es, students, courses, picks, n);
      assert students[..n + 1] == students && picks[..n + 1] == picks;
      var before := EnrollAllRows(es, students[..n], courses, picks[..n]);
      var more := EnrollRows(es + before, students[n], courses, picks[n]);
      var rows := before + more;
      EnrollAllRowsFromAbsentPicks(es, students[..n], courses, picks[..n]);
      EnrollRowsFromAbsentPicks(es + before, students[n], courses, picks[n]);
      forall k | 0 <= k < |rows| ensures FromSomeAbsentPick(rows[k], es, students, courses, picks) {
        if k < |before| {
          assert FromSomeAbsentPick(before[k], es, students[..n], courses, picks[..n]);
          var s, p :| 0 <= s < |students[..n]| && s < |picks[..n]| && 0 <= p < |picks[..n][s]|
            && FromAbsentPick(before[k], es, students[..n][s], courses, picks[..n][s][p]);
          assert rows[k] == before[k] && students[..n][s] == students[s] && picks[..n][s] == picks[s];
          assert FromAbsentPick(rows[k], es, students[s], courses, picks[s][p]);
        } else {
          var p :| 0 <= p < |picks[n]| && FromAbsentPick(more[k - |before|], es + before, students[n], courses, picks[n][p]);
          AbsentBefore(es, before, rows[k], students[n], courses, picks[n][p]);
          assert FromAbsentPick(rows[k], es, students[n], courses, picks[n][p]);
        }
      }
    }
  }

  /** After all students' rows, every picked pair is present. */
  lemma {:induction false} EnrollAllRowsCoverPicks(es: seq<Enrollment>, students: seq<nat>, courses: seq<nat>,
                                                   picks: seq<seq<EnrollPick>>)
    requires |picks| == |students|
    requires PicksInRange(picks, |courses|)
    ensures forall s, p :: 0 <= s < |students| && 0 <= p < |picks[s]| ==>
      EnrollmentOf(es + EnrollAllRows(es, students, courses, picks), students[s], courses[picks[s][p].course]).Some?
    decreases |students|
  {
    if students != [] {
      var n := |students| - 1;
      EnrollAllRowsStep(es, students, courses, picks, n);
      assert students[..n + 1] == students && picks[..n + 1] == picks;
      var before := EnrollAllRows(es, students[..n], courses, picks[..n]);
      var more := EnrollRows(es + before, students[n], courses, picks[n]);
      AppendAssociates(es, before, more);
      EnrollAllRowsCoverPicks(es, students[..n], courses, picks[..n]);
      EnrollRowsCoverPicks(es + before, students[n], courses, picks[n]);
      forall s, p | 0 <= s < |students| && 0 <= p < |picks[s]|
        ensures EnrollmentOf(es + (before + more), students[s], courses[picks[s][p].course]).Some?
      {
        if s < n {
          assert students[..n][s] == students[s] && picks[..n][s] == picks[s];
          LookupSurvivesAppend(es + before, more, students[s], courses[picks[s][p].course]);
        }
      }
    }
  }

  /** `_create_enrollments`: every student is enrolled, through get_or_create,
      in each course picked for them; the result counts the pairs that were
      new. With students but fewer than two courses, `random.randint(2, n)`
      raises before anything is written. */
  method CreateEnrollments(db: Store, students: seq<nat>, courses: seq<nat>, picks: seq<seq<EnrollPick>>)
    returns (total: Option<nat>)
    requires db.Valid()
    requires |picks| == |students|
    requires |courses| >= 2 ==> forall s :: 0 <= s < |picks| ==> ValidPicks(picks[s], |courses|)
    modifies db
    ensures db.Valid() && db.OnlyChanged({Enrollments})
    ensures total.None? <==> |students| > 0 && |courses| < 2
    ensures total.None? ==> db.enrollments == old(db.enrollments)
    ensures total.Some? ==> PicksInRange(picks, |courses|)
    ensures total.Some? ==>
      db.enrollments == old(db.enrollments) + EnrollAllRows(old(db.enrollments), students, courses, picks)
    ensures total.Some? ==> total.value == |EnrollAllRows(old(db.enrollments), students, courses, picks)|
  {
    if |students| > 0 && |courses| < 2 {
      return None;
    }
    ghost var es := db.enrollments;
    var n := 0;
    var s := 0;
    while s < |students|
      invariant 0 <= s <= |students|
      invariant db.Valid() && db.OnlyChanged({Enrollments})
      invariant PicksInRange(picks[..s], |courses|)
      invariant db.enrollments == es + EnrollAllRows(es, students[..s], courses, picks[..s])
      invariant n == |EnrollAllRows(es, students[..s], courses, picks[..s])|
    {
      EnrollAllRowsStep(es, students, courses, picks, s);
      ghost var before := EnrollAllRows(es, students[..s], courses, picks[..s]);
      var added := EnrollStudent(db, students[s], courses, picks[s]);
      AppendAssociates(es, before, EnrollRows(es + before, students[s], courses, picks[s]));
      n := n + added;
      s := s + 1;
    }
    assert students[..s] == students && picks[..s] == picks;
    total := Some(n);
  }

  /** What `_create_enrollments` leaves behind: the table only grows, each new
      row is an absent pick of some student, and every picked pair is
      present. */
  lemma EnrollAllRowsFacts(es: seq<Enrollment>, students: seq<nat>, courses: seq<nat>, picks: seq<seq<EnrollPick>>)
    requires |picks| == |students|
    requires PicksInRange(picks, |courses|)
    ensures Grown(es + EnrollAllRows(es, students, courses, picks), es)
    ensures AllRowsFromAbsentPicks(EnrollAllRows(es, students, courses, picks), es, students, courses, picks)
    ensures forall s, p :: 0 <= s < |students| && 0 <= p < |picks[s]| ==>
      EnrollmentOf(es + EnrollAllRows(es, students, courses, picks), students[s], courses[picks[s][p].course]).Some?
  {
    assert (es + EnrollAllRows(es, students, courses, picks))[..|es|] == es;
    EnrollAllRowsFromAbsentPicks(es, students, courses, picks);
    EnrollAllRowsCoverPicks(es, students, courses, picks);
  }

  // ---------------------------------------------------------------------
  // _create_lessons

  /** The draws for one lesson: `random.choice(lesson_types)`,
      `random.randint(5, 60)` and `random.choice([True, False])`. */
  datatype LessonDraw = LessonDraw(lessonType: LessonType, duration: nat, completed: bool)

  /** One course's lesson draws: `random.randint(5, 15)` lessons, each of type
      video, pdf or text. */
  predicate ValidLessonDraws(ds: seq<LessonDraw>) {
    && 5 <= |ds| <= 15
    && forall i :: 0 <= i < |ds| ==> ds[i].lessonType != QuizContent && 5 <= ds[i].duration <= 60
  }

  /** The stored `lesson_type` value. */
  function TypeName(t: LessonType): string {
    match t
    case Video => "video"
    case Pdf => "pdf"
    case TextContent => "text"
    case QuizContent => "quiz"
  }

  /** `lesson_type.title()` */
  function TypeTitle(t: LessonType): string {
    match t
    case Video => "Video"
    case Pdf => "Pdf"
    case TextContent => "Text"
    case QuizContent => "Quiz"
  }

  const LessonContentLead := "Demo content for "
  const LessonContentTail := ". This lesson covers important concepts and practical examples."

  /** The object `Lesson.objects.create` is given for lesson `i` (0-based)
      of a course, its slug still empty. */
  function LessonRow(course: nat, courseTitle: string, i: nat, d: LessonDraw): Lesson {
    var title := "Lesson " + Decimal(i + 1) + ": " + TypeTitle(d.lessonType) + " Content";
    Lesson(course, title, "", d.lessonType,
      LessonContentLead + TypeName(d.lessonType) + " lesson " + Decimal(i + 1) + " of " + courseTitle
        + LessonContentTail,
      i + 1, d.duration, i == 0, d.completed)
  }

  /** The row written for it, with the slug Lesson.save derives. */
  function SeededLesson(course: nat, courseTitle: string, i: nat, d: LessonDraw): Lesson {
    var row := LessonRow(course, courseTitle, i, d);
    row.(slug := NameSlug(row.title))
  }

  function SeededLessons(course: nat, courseTitle: string, ds: seq<LessonDraw>): seq<Lesson> {
    seq(|ds|, i requires 0 <= i < |ds| => SeededLesson(course, courseTitle, i, ds[i]))
  }

  /** The lessons of every course in `ids`, course by course. */
  function LessonPlan(table: seq<Course>, ids: seq<nat>, draws: seq<seq<LessonDraw>>): seq<seq<Lesson>>
    requires |draws| == |ids|
    requires forall c :: 0 <= c < |ids| ==> ids[c] < |table|
  {
    seq(|ids|, c requires 0 <= c < |ids| => SeededLessons(ids[c], table[ids[c]].title, draws[c]))
  }

  /** One course's seeded lessons: 5 to 15 of them, all in the course, ordered
      1..n, only the first a preview, each with a slug derived from its title. */
  lemma SeededLessonsShape(course: nat, courseTitle: string, ds: seq<LessonDraw>)
    requires ValidLessonDraws(ds)
    ensures var rows := SeededLessons(course, courseTitle, ds);
      && 5 <= |rows| <= 15
      && (forall i :: 0 <= i < |rows| ==>
            rows[i].course == course && rows[i].order == i + 1 && (rows[i].isPreview <==> i == 0)
            && rows[i].lessonType != QuizContent && rows[i].slug == NameSlug(rows[i].title))
  {
  }

  lemma {:induction false} LessonsAppend(a: seq<Lesson>, b: seq<Lesson>, course: nat)
    ensures LessonCount(a + b, course) == LessonCount(a, course) + LessonCount(b, course)
    decreases |b|
  {
    if b == [] {
      assert a + b == a;
    } else {
      var n := |b| - 1;
      assert (a + b)[..|a + b| - 1] == a + b[..n];
      LessonsAppend(a, b[..n], course);
    }
  }

  /** Rows that all belong to `course` are all counted for it. */
  lemma {:induction false} AllInCourseCounted(rows: seq<Lesson>, course: nat)
    requires forall i :: 0 <= i < |rows| ==> rows[i].course == course
    ensures LessonCount(rows, course) == |rows|
    decreases |rows|
  {
    if rows != [] {
      AllInCourseCounted(rows[..|rows| - 1], course);
    }
  }

  /** After seeding a course its lesson count has grown by exactly the number
      of lessons drawn for it. */
  lemma SeededLessonsCounted(before: seq<Lesson>, course: nat, courseTitle: string, ds: seq<LessonDraw>)
    ensures LessonCount(before + SeededLessons(course, courseTitle, ds), course) == LessonCount(before, course) + |ds|
  {
    var rows := SeededLessons(course, courseTitle, ds);
    LessonsAppend(before, rows, course);
    AllInCourseCounted(rows, course);
  }

  /** The inner loop of `_create_lessons`: one course's lessons, in order. */
  method CreateCourseLessons(db: Store, course: nat, courseTitle: string, ds: seq<LessonDraw>) returns (n: nat)
    modifies db
    ensures db.OnlyChanged({Lessons})
    ensures db.lessons == old(db.lessons) + SeededLessons(course, courseTitle, ds)
    ensures n == |ds|
  {
    ghost var rows := SeededLessons(course, courseTitle, ds);
    n := 0;
    var i := 0;
    while i < |ds|
      invariant 0 <= i <= |ds| && n == i
      invariant db.OnlyChanged({Lessons})
      invariant db.lessons == old(db.lessons) + rows[..i]
    {
      var row := LessonRow(course, courseTitle, i, ds[i]);
      assert row.(slug := FilledSlug(row.slug, NameSlug(row.title))) == rows[i];
      AppendedRowStep(old(db.lessons), rows, i);
      var _ := db.SaveLesson(row, None);
      n := n + 1;
      i := i + 1;
    }
    assert rows[..i] == rows;
  }

  lemma LessonPlanStep(table: seq<Course>, ids: seq<nat>, draws: seq<seq<LessonDraw>>, c: nat)
    requires |draws| == |ids| && c < |ids|
    requires forall k :: 0 <= k < |ids| ==> ids[k] < |table| && ValidLessonDraws(draws[k])
    ensures LessonPlan(table, ids, draws)[c] == SeededLessons(ids[c], table[ids[c]].title, draws[c])
    ensures 5 <= |draws[c]| <= 15
  {
  }

  /** `_create_lessons`: for each course in turn, its drawn lessons are created
      in order; the result is the number of lessons created. */
  method CreateLessons(db: Store, courses: seq<nat>, draws: seq<seq<LessonDraw>>) returns (total: nat)
    requires |draws| == |courses|
    requires forall c :: 0 <= c < |courses| ==> courses[c] < |db.courses| && ValidLessonDraws(draws[c])
    modifies db
    ensures db.OnlyChanged({Lessons})
    ensures db.lessons == old(db.lessons) + Concat(LessonPlan(db.courses, courses, draws))
    ensures total == |db.lessons| - |old(db.lessons)|
    ensures 5 * |courses| <= total <= 15 * |courses|
  {
    var table := db.courses;
    ghost var plan := LessonPlan(table, courses, draws);
    total := 0;
    var c := 0;
    while c < |courses|
      invariant 0 <= c <= |courses|
      invariant db.OnlyChanged({Lessons})
      invariant db.lessons == old(db.lessons) + Concat(plan[..c])
      invariant total == |db.lessons| - |old(db.lessons)|
      invariant 5 * c <= total <= 15 * c
    {
      LessonPlanStep(table, courses, draws, c);
      AppendedGroupStep(old(db.lessons), plan, c);
      var n := CreateCourseLessons(db, courses[c], table[courses[c]].title, draws[c]);
      total := total + n;
      c := c + 1;
    }
    assert plan[..c] == plan;
  }

  // ---------------------------------------------------------------------
  // _create_categories

  /** The twelve predefined categories: name and description. */
  const PredefinedCategories: seq<(string, string)> := [
    ("Demo Python Programming", "Python courses for all levels"),
    ("Demo Web Development", "Frontend and backend web development"),
    ("Demo Data Science", "Machine learning and data analysis"),
    ("Demo Digital Marketing", "SEO, social media, and marketing"),
    ("Demo Graphic Design", "Adobe tools and design principles"),
    ("Demo Mobile Development", "iOS and Android app development"),
    ("Demo Business & Finance", "Management and financial skills"),
    ("Demo AI & Machine Learning", "Artificial intelligence courses"),
    ("Demo Cybersecurity", "Network security and ethical hacking"),
    ("Demo Cloud Computing", "AWS, Azure, and cloud technologies"),
    ("Demo DevOps", "CI/CD pipelines and infrastructure as code"),
    ("Demo Blockchain", "Cryptocurrency and smart contracts")
  ]

  /** `f"Demo Category {n}"` */
  function GenericCategoryName(n: nat): (name: string)
    ensures |name| > 14 && name[..14] == "Demo Category "
    ensures "Demo " <= name && name[5] == 'C' && name[6] == 'a'
  {
    var name := "Demo Category " + Decimal(n);
    assert name[..14] == "Demo Category ";
    name
  }

  /** The name `_create_categories` gives the `i`-th category it creates when
      every get_or_create creates: the predefined names first, then
      "Demo Category {i+1}". */
  function SeededCategoryName(i: nat): (name: string)
    ensures "Demo " <= name
  {
    if i < |PredefinedCategories| then PredefinedCategories[i].0 else GenericCategoryName(i + 1)
  }

  lemma PredefinedCategoryNamesDistinct(a: nat, b: nat)
    requires a < b < |PredefinedCategories|
    ensures PredefinedCategories[a].0 != PredefinedCategories[b].0
  {
    var x, y := PredefinedCategories[a].0, PredefinedCategories[b].0;
    if |x| == |y| {
      assert x[5] != y[5];
    }
  }

  lemma PredefinedNotGeneric(a: nat, m: nat)
    requires a < |PredefinedCategories|
    ensures PredefinedCategories[a].0 != GenericCategoryName(m)
  {
    var x := PredefinedCategories[a].0;
    assert x[5] != 'C' || x[6] != 'a';
  }

  /** No two categories the command creates share a name, so on a store
      without "Demo " categories every get_or_create creates. */
  lemma SeededCategoryNamesDistinct(i: nat, j: nat)
    requires i != j
    ensures SeededCategoryName(i) != SeededCategoryName(j)
  {
    var n := |PredefinedCategories|;
    if i < n && j < n {
      if i < j {
        PredefinedCategoryNamesDistinct(i, j);
      } else {
        PredefinedCategoryNamesDistinct(j, i);
      }
    } else if i < n {
      PredefinedNotGeneric(i, j + 1);
    } else if j < n {
      PredefinedNotGeneric(j, i + 1);
    } else {
      GenericCategoryNamesDistinct(i + 1, j + 1);
    }
  }

  lemma GenericCategoryNamesDistinct(m: nat, n: nat)
    requires m != n
    ensures GenericCategoryName(m) != GenericCategoryName(n)
  {
    var x, y := GenericCategoryName(m), GenericCategoryName(n);
    if x == y {
      assert Decimal(m) == x[14..] == y[14..] == Decimal(n);
      DecimalInjective(m, n);
    }
  }

  /** No category name in `cs` starts with "Demo " (the state the clean-up
      step leaves). */
  ghost predicate NoDemoCategories(cs: seq<Category>) {
    forall k :: 0 <= k < |cs| ==> !("Demo " <= cs[k].name)
  }

  /** On a store whose older categories carry no "Demo " name and whose
      newer ones are the first `n` seeded names, the `i`-th seeded name for
      `i >= n` is still free. */
  lemma SeededNameFree(cs: seq<Category>, base: nat, n: nat, i: nat)
    requires base + n == |cs| && n <= i
    requires NoDemoCategories(cs[..base])
    requires forall k :: 0 <= k < n ==> cs[base + k].name == SeededCategoryName(k)
    ensures forall j :: 0 <= j < |cs| ==> cs[j].name != SeededCategoryName(i)
  {
    var name := SeededCategoryName(i);
    forall j | 0 <= j < base ensures cs[j].name != name {
      assert cs[j] == cs[..base][j];
    }
    forall j | base <= j < |cs| ensures cs[j].name != name {
      var k := j - base;
      assert cs[base + k].name == SeededCategoryName(k);
      SeededCategoryNamesDistinct(k, i);
    }
  }

  /** The categories table after `created` were appended to `before`: the
      old rows untouched, the new ones at consecutive ids, each with a "Demo "
      name and the slug Category.save derives from it. */
  ghost predicate CategoriesAppended(cs: seq<Category>, before: seq<Category>, created: seq<nat>) {
    && |cs| == |before| + |created|
    && cs[..|before|] == before
    && (forall k :: 0 <= k < |created| ==> created[k] == |before| + k)
    && (forall k :: |before| <= k < |cs| ==> "Demo " <= cs[k].name && cs[k].slug == NameSlug(cs[k].name))
  }

  /** The new categories are the first `|created|` seeded names. */
  ghost predicate SeededNames(cs: seq<Category>, base: nat, created: seq<nat>)
    requires base + |created| <= |cs|
  {
    forall k :: 0 <= k < |created| ==> cs[base + k].name == SeededCategoryName(k)
  }

  /** get_or_create of one more name keeps the table appended-to. */
  lemma CategoryStep(cs: seq<Category>, before: seq<Category>, created: seq<nat>, name: string, description: string)
    requires CategoriesAppended(cs, before, created)
    requires "Demo " <= name
    ensures CategoriesAppended(cs + [Category(name, NameSlug(name), description)], before, created + [|cs|])
  {
    var cs' := cs + [Category(name, NameSlug(name), description)];
    assert cs'[..|before|] == cs[..|before|];
  }

  /** Appending the next seeded name keeps the new names the seeded ones. */
  lemma SeededNamesStep(cs: seq<Category>, base: nat, created: seq<nat>, row: Category)
    requires base + |created| == |cs|
    requires SeededNames(cs, base, created)
    requires row.name == SeededCategoryName(|created|)
    ensures SeededNames(cs + [row], base, created + [|cs|])
  {
    var cs' := cs + [row];
    forall k | 0 <= k < |created| + 1 ensures cs'[base + k].name == SeededCategoryName(k) {
      if k < |created| {
        assert cs'[base + k] == cs[base + k];
      }
    }
  }

  /** While every earlier get_or_create created, the next seeded name is
      not yet taken. */
  lemma SeededNameUnused(cs: seq<Category>, before: seq<Category>, created: seq<nat>, i: nat)
    requires CategoriesAppended(cs, before, created) && NoDemoCategories(before)
    requires SeededNames(cs, |before|, created) && |created| <= i
    ensures CategoryNamed(cs, SeededCategoryName(i)).None?
  {
    SeededNameFree(cs, |before|, |created|, i);
  }

  /** The first loop of `_create_categories`: get_or_create on the first `m`
      predefined names. */
  method CreatePredefinedCategories(db: Store, m: int) returns (created: seq<nat>)
    requires m <= |PredefinedCategories|
    modifies db
    ensures db.OnlyChanged({Categories})
    ensures CategoriesAppended(db.categories, old(db.categories), created)
    ensures |created| <= Max(m, 0)
    ensures NoDemoCategories(old(db.categories)) ==>
      |created| == Max(m, 0) && SeededNames(db.categories, |old(db.categories)|, created)
  {
    ghost var before := db.categories;
    ghost var clean := NoDemoCategories(db.categories);
    created := [];
    var i := 0;
    while i < m
      invariant 0 <= i <= Max(m, 0)
      invariant db.OnlyChanged({Categories})
      invariant CategoriesAppended(db.categories, before, created)
      invariant |created| <= i
      invariant clean ==> |created| == i && SeededNames(db.categories, |before|, created)
    {
      var name := PredefinedCategories[i].0;
      assert name == SeededCategoryName(i);
      if clean {
        SeededNameUnused(db.categories, before, created, i);
      }
      ghost var cs := db.categories;
      var id, wasCreated := db.GetOrCreateCategory(name, PredefinedCategories[i].1);
      if wasCreated {
        CategoryStep(cs, before, created, name, PredefinedCategories[i].1);
        if clean {
          SeededNamesStep(cs, |before|, created, Category(name, NameSlug(name), PredefinedCategories[i].1));
        }
        created := created + [id];
      }
      i := i + 1;
    }
  }

  const GenericDescriptionLead := "Description for category "

  /** The second loop of `_create_categories`: get_or_create on
      "Demo Category {i+1}" for `i` from the number created so far up to
      `count`. */
  method CreateGenericCategories(db: Store, created0: seq<nat>, count: int, ghost before: seq<Category>)
    returns (created: seq<nat>)
    requires CategoriesAppended(db.categories, before, created0)
    modifies db
    ensures db.OnlyChanged({Categories})
    ensures CategoriesAppended(db.categories, before, created)
    ensures |created| <= Max(count, |created0|)
    ensures (NoDemoCategories(before) && SeededNames(old(db.categories), |before|, created0)
      && (|created0| >= |PredefinedCategories| || |created0| >= count)) ==>
      |created| == Max(count, |created0|) && SeededNames(db.categories, |before|, created)
  {
    ghost var clean := NoDemoCategories(before) && SeededNames(db.categories, |before|, created0)
      && (|created0| >= |PredefinedCategories| || |created0| >= count);
    created := created0;
    var j := |created|;
    while j < count
      invariant |created0| <= j <= Max(count, |created0|)
      invariant db.OnlyChanged({Categories})
      invariant CategoriesAppended(db.categories, before, created)
      invariant |created| <= j
      invariant clean ==> |created| == j && (j >= |PredefinedCategories| || j >= count)
      invariant clean ==> SeededNames(db.categories, |before|, created)
    {
      var name := GenericCategoryName(j + 1);
      if clean {
        assert name == SeededCategoryName(j);
        SeededNameUnused(db.categories, before, created, j);
      }
      ghost var cs := db.categories;
      var description := GenericDescriptionLead + Decimal(j + 1);
      var id, wasCreated := db.GetOrCreateCategory(name, description);
      if wasCreated {
        CategoryStep(cs, before, created, name, description);
        if clean {
          SeededNamesStep(cs, |before|, created, Category(name, NameSlug(name), description));
        }
        created := created + [id];
      }
      j := j + 1;
    }
  }

  /** `_create_categories`: get_or_create on the first `min(count, 12)`
      predefined names, then on generic names until `count` categories were
      created or the range is exhausted; the result lists the categories
      actually created. On a store without "Demo " categories every call
      creates, so exactly `count` categories are created, under the seeded
      names in order. */
  method CreateCategories(db: Store, count: int) returns (created: seq<nat>)
    modifies db
    ensures db.OnlyChanged({Categories})
    ensures CategoriesAppended(db.categories, old(db.categories), created)
    ensures |created| <= Max(count, 0)
    ensures NoDemoCategories(old(db.categories)) ==>
      |created| == Max(count, 0) && SeededNames(db.categories, |old(db.categories)|, created)
  {
    created := CreatePredefinedCategories(db, Min(count, |PredefinedCategories|));
    created := CreateGenericCategories(db, created, count, old(db.categories));
  }

  // ---------------------------------------------------------------------
  // _create_courses

  /** The ten predefined courses: title, short description, level, duration
      and price in cents. */
  const PredefinedCourses: seq<(string, string, string, string, nat)> := [
    ("Complete Python Bootcamp", "Learn Python from scratch to advanced", "beginner", "12 weeks", 8999),
    ("Advanced Web Development", "Build modern web applications", "intermediate", "10 weeks", 12999),
    ("Data Science Masterclass", "Machine learning and data analysis", "intermediate", "16 weeks", 14999),
    ("Digital Marketing Pro", "SEO, PPC, and social media marketing", "beginner", "8 weeks", 7999),
    ("React Native Mobile Apps", "Build cross-platform mobile apps", "intermediate", "6 weeks", 9999),
    ("AWS Cloud Practitioner", "Amazon Web Services fundamentals", "beginner", "4 weeks", 5999),
    ("UI/UX Design Essentials", "Figma and design principles", "beginner", "8 weeks", 6999),
    ("Cybersecurity Fundamentals", "Network security basics", "beginner", "6 weeks", 8999),
    ("DevOps Engineering", "CI/CD pipelines and automation", "intermediate", "12 weeks", 11999),
    ("Machine Learning Deep Dive", "Neural networks and deep learning", "advanced", "20 weeks", 19999)
  ]

  /** The choices of Course.level: stored value and label. */
  const LevelChoices: seq<(string, string)> := [
    ("beginner", "Beginner"), ("intermediate", "Intermediate"), ("advanced", "Advanced")
  ]

  const RandomPrices: seq<nat> := [0, 2999, 4999, 7999, 9999, 12999]
  const RandomLevels: seq<string> := ["beginner", "intermediate", "advanced"]

  /** The draws for one extra course, in the order the source makes them. */
  datatype CourseDraw = CourseDraw(
    descriptionLevel: nat,
    shortLevel: nat,
    category: nat,
    instructor: nat,
    price: nat,
    weeks: nat,
    level: nat)

  predicate ValidCourseDraw(d: CourseDraw, categoryCount: nat, instructorCount: nat) {
    && d.descriptionLevel < |LevelChoices| && d.shortLevel < |LevelChoices|
    && d.category < categoryCount && d.instructor < instructorCount
    && d.price < |RandomPrices| && 4 <= d.weeks <= 16 && d.level < |RandomLevels|
  }

  const PredefinedDescriptionTail := ". This comprehensive course covers all essential topics with hands-on projects."
  const RandomDescriptionLead := "Comprehensive course covering various topics in "
  const RandomShortLead := "Learn essential skills for "

  /** The object `Course.objects.create` is given for predefined course `i`. */
  function PredefinedCourse(i: nat, categories: seq<nat>, instructors: seq<nat>): Course
    requires i < |PredefinedCourses| && |categories| > 0 && |instructors| > 0
  {
    var data := PredefinedCourses[i];
    Course(data.0, "", data.1 + PredefinedDescriptionTail,
      data.1, categories[i % |categories|], instructors[i % |instructors|], true, data.4, data.3, data.2)
  }

  /** The object `Course.objects.create` is given for extra course `i`. */
  function RandomCourse(i: nat, categories: seq<nat>, instructors: seq<nat>, d: CourseDraw): Course
    requires ValidCourseDraw(d, |categories|, |instructors|)
  {
    Course("Demo Course " + Decimal(i + 1), "",
      RandomDescriptionLead + LowerString(LevelChoices[d.descriptionLevel].1) + " level.",
      RandomShortLead + LowerString(LevelChoices[d.shortLevel].1) + " development",
      categories[d.category], instructors[d.instructor], true, RandomPrices[d.price],
      Decimal(d.weeks) + " weeks", RandomLevels[d.level])
  }

  /** A course the command wrote: published, owned by one of the given
      instructors, in one of the given categories, with its derived slug. */
  ghost predicate SeededCourse(c: Course, categories: seq<nat>, instructors: seq<nat>) {
    c.isPublished && c.instructor in instructors && c.category in categories && c.slug == CourseSlug(c.title)
  }

  /** The row Course.save writes for `c`: the slug derived when empty. */
  function SavedCourse(c: Course): Course {
    c.(slug := FilledSlug(c.slug, CourseSlug(c.title)))
  }

  lemma PredefinedCourseSeeded(i: nat, categories: seq<nat>, instructors: seq<nat>)
    requires i < |PredefinedCourses| && |categories| > 0 && |instructors| > 0
    ensures SeededCourse(SavedCourse(PredefinedCourse(i, categories, instructors)), categories, instructors)
    ensures SavedCourse(PredefinedCourse(i, categories, instructors)).title == PredefinedCourses[i].0
  {
  }

  lemma RandomCourseSeeded(i: nat, categories: seq<nat>, instructors: seq<nat>, d: CourseDraw)
    requires ValidCourseDraw(d, |categories|, |instructors|)
    ensures SeededCourse(SavedCourse(RandomCourse(i, categories, instructors, d)), categories, instructors)
    ensures SavedCourse(RandomCourse(i, categories, instructors, d)).title == "Demo Course " + Decimal(i + 1)
  {
  }

  /** The courses table after `ids` were appended to `before`: the old rows
      untouched, the new ones at consecutive ids, each a seeded course. */
  ghost predicate CoursesAppended(cs: seq<Course>, before: seq<Course>, ids: seq<nat>,
                                  categories: seq<nat>, instructors: seq<nat>) {
    && |cs| == |before| + |ids|
    && cs[..|before|] == before
    && (forall k :: 0 <= k < |ids| ==> ids[k] == |before| + k)
    && (forall k :: |before| <= k < |cs| ==> SeededCourse(cs[k], categories, instructors))
  }

  /** The title of the `k`-th course created when the first `predefined` of
      them come from the predefined list. */
  function SeededCourseTitle(k: nat, predefined: nat): string {
    if k < predefined && k < |PredefinedCourses| then PredefinedCourses[k].0 else "Demo Course " + Decimal(k + 1)
  }

  ghost predicate CourseTitles(cs: seq<Course>, base: nat, n: nat, predefined: nat)
    requires base + n <= |cs|
  {
    forall k :: 0 <= k < n ==> cs[base + k].title == SeededCourseTitle(k, predefined)
  }

  lemma CourseStep(cs: seq<Course>, before: seq<Course>, ids: seq<nat>, c: Course,
                   categories: seq<nat>, instructors: seq<nat>, predefined: nat)
    requires CoursesAppended(cs, before, ids, categories, instructors)
    requires CourseTitles(cs, |before|, |ids|, predefined)
    requires SeededCourse(c, categories, instructors) && c.title == SeededCourseTitle(|ids|, predefined)
    ensures CoursesAppended(cs + [c], before, ids + [|cs|], categories, instructors)
    ensures CourseTitles(cs + [c], |before|, |ids| + 1, predefined)
  {
    CoursesAppendedStep(cs, before, ids, c, categories, instructors);
    CourseTitlesStep(cs, |before|, |ids|, c, predefined);
  }

  lemma CoursesAppendedStep(cs: seq<Course>, before: seq<Course>, ids: seq<nat>, c: Course,
                            categories: seq<nat>, instructors: seq<nat>)
    requires CoursesAppended(cs, before, ids, categories, instructors)
    requires SeededCourse(c, categories, instructors)
    ensures CoursesAppended(cs + [c], before, ids + [|cs|], categories, instructors)
  {
    var cs' := cs + [c];
    assert cs'[..|before|] == cs[..|before|];
  }

  lemma CourseTitlesStep(cs: seq<Course>, base: nat, n: nat, c: Course, predefined: nat)
    requires base + n == |cs|
    requires CourseTitles(cs, base, n, predefined)
    requires c.title == SeededCourseTitle(n, predefined)
    ensures CourseTitles(cs + [c], base, n + 1, predefined)
  {
    var cs' := cs + [c];
    forall k | 0 <= k < n + 1 ensures cs'[base + k].title == SeededCourseTitle(k, predefined) {
      if k < n {
        assert cs'[base + k] == cs[base + k];
      }
    }
  }

  /** `Course.objects.create` for predefined entry `i`: the saved row and
      its id. */
  method CreatePredefinedCourse(db: Store, i: nat, categories: seq<nat>, instructors: seq<nat>)
    returns (id: nat, course: Course)
    requires i < |PredefinedCourses| && |categories| > 0 && |instructors| > 0
    modifies db
    ensures db.OnlyChanged({Courses})
    ensures id == |old(db.courses)| && db.courses == old(db.courses) + [course]
    ensures SeededCourse(course, categories, instructors) && course.title == PredefinedCourses[i].0
  {
    PredefinedCourseSeeded(i, categories, instructors);
    course := SavedCourse(PredefinedCourse(i, categories, instructors));
    id := db.SaveCourse(PredefinedCourse(i, categories, instructors), None);
  }

  /** `Course.objects.create` for extra course `i` with draws `d`. */
  method CreateRandomCourse(db: Store, i: nat, categories: seq<nat>, instructors: seq<nat>, d: CourseDraw)
    returns (id: nat, course: Course)
    requires ValidCourseDraw(d, |categories|, |instructors|)
    modifies db
    ensures db.OnlyChanged({Courses})
    ensures id == |old(db.courses)| && db.courses == old(db.courses) + [course]
    ensures SeededCourse(course, categories, instructors) && course.title == "Demo Course " + Decimal(i + 1)
  {
    RandomCourseSeeded(i, categories, instructors, d);
    course := SavedCourse(RandomCourse(i, categories, instructors, d));
    id := db.SaveCourse(RandomCourse(i, categories, instructors, d), None);
  }

  /** The first loop of `_create_courses`: the predefined courses, one per
      instructor while both last. With instructors but no category the first
      `i % len(categories)` raises before anything is written. */
  method CreatePredefinedCourses(db: Store, categories: seq<nat>, instructors: seq<nat>)
    returns (created: Option<seq<nat>>)
    modifies db
    ensures db.OnlyChanged({Courses})
    ensures created.None? <==> |instructors| > 0 && |categories| == 0
    ensures created.None? ==> db.courses == old(db.courses)
    ensures created.Some? ==>
      && |created.value| == Min(|PredefinedCourses|, |instructors|)
      && CoursesAppended(db.courses, old(db.courses), created.value, categories, instructors)
      && CourseTitles(db.courses, |old(db.courses)|, |created.value|, |created.value|)
  {
    ghost var before := db.courses;
    ghost var predefined := Min(|PredefinedCourses|, |instructors|);
    var ids: seq<nat> := [];
    var i := 0;
    while i < |PredefinedCourses| && i < |instructors|
      invariant 0 <= i <= predefined && |ids| == i
      invariant i > 0 ==> |categories| > 0
      invariant db.OnlyChanged({Courses})
      invariant CoursesAppended(db.courses, before, ids, categories, instructors)
      invariant CourseTitles(db.courses, |before|, i, predefined)
    {
      if |categories| == 0 {
        assert i == 0 && db.courses[..|before|] == db.courses;
        return None;
      }
      ghost var cs := db.courses;
      var id, course := CreatePredefinedCourse(db, i, categories, instructors);
      CourseStep(cs, before, ids, course, categories, instructors, predefined);
      ids := ids + [id];
      i := i + 1;
    }
    created := Some(ids);
  }

  /** The second loop of `_create_courses`: extra courses numbered from the
      count so far up to `count`. `random.choice` on an empty category or
      instructor list raises before the first write. */
  method CreateRandomCourses(db: Store, ids0: seq<nat>, count: int, categories: seq<nat>, instructors: seq<nat>,
                             draws: seq<CourseDraw>, ghost before: seq<Course>, ghost predefined: nat)
    returns (created: Option<seq<nat>>)
    requires CoursesAppended(db.courses, before, ids0, categories, instructors)
    requires CourseTitles(db.courses, |before|, |ids0|, predefined) && |ids0| == predefined
    requires |categories| > 0 && |instructors| > 0 ==>
      count <= |draws| && forall i :: 0 <= i < |draws| ==> ValidCourseDraw(draws[i], |categories|, |instructors|)
    modifies db
    ensures db.OnlyChanged({Courses})
    ensures created.None? <==> |ids0| < count && (|categories| == 0 || |instructors| == 0)
    ensures created.None? ==> db.courses == old(db.courses)
    ensures created.Some? ==>
      && |created.value| == Max(count, |ids0|)
      && CoursesAppended(db.courses, before, created.value, categories, instructors)
      && CourseTitles(db.courses, |before|, |created.value|, predefined)
  {
    var ids := ids0;
    var j := |ids|;
    while j < count
      invariant |ids0| <= j <= Max(count, |ids0|) && |ids| == j
      invariant j > |ids0| ==> |categories| > 0 && |instructors| > 0
      invariant db.OnlyChanged({Courses})
      invariant j == |ids0| ==> db.courses == old(db.courses)
      invariant CoursesAppended(db.courses, before, ids, categories, instructors)
      invariant CourseTitles(db.courses, |before|, j, predefined)
    {
      if |categories| == 0 || |instructors| == 0 {
        return None;
      }
      ghost var cs := db.courses;
      var id, course := CreateRandomCourse(db, j, categories, instructors, draws[j]);
      CourseStep(cs, before, ids, course, categories, instructors, predefined);
      ids := ids + [id];
      j := j + 1;
    }
    created := Some(ids);
  }

  /** `_create_courses`: one course per predefined entry while instructors
      last, then extra courses up to `count`, so `max(min(10, #instructors),
      count)` courses in all. With instructors but no category, or with no
      instructor and a positive `count`, it raises before any write. */
  method CreateCourses(db: Store, count: int, categories: seq<nat>, instructors: seq<nat>, draws: seq<CourseDraw>)
    returns (created: Option<seq<nat>>)
    requires |categories| > 0 && |instructors| > 0 ==>
      count <= |draws| && forall i :: 0 <= i < |draws| ==> ValidCourseDraw(draws[i], |categories|, |instructors|)
    modifies db
    ensures db.OnlyChanged({Courses})
    ensures created.None? <==> (|instructors| > 0 && |categories| == 0) || (|instructors| == 0 && count > 0)
    ensures created.None? ==> db.courses == old(db.courses)
    ensures created.Some? ==>
      && |created.value| == Max(Min(|PredefinedCourses|, |instructors|), count)
      && CoursesAppended(db.courses, old(db.courses), created.value, categories, instructors)
      && CourseTitles(db.courses, |old(db.courses)|, |created.value|, Min(|PredefinedCourses|, |instructors|))
  {
    var first := CreatePredefinedCourses(db, categories, instructors);
    if first.None? {
      return None;
    }
    if |first.value| == 0 {
      assert db.courses == db.courses[..|old(db.courses)|];
    }
    created := CreateRandomCourses(db, first.value, count, categories, instructors, draws, old(db.courses), |first.value|);
  }

  // ---------------------------------------------------------------------
  // _create_quizzes_fixed

  /** The draws for one question: `random.choice(["mcq", "true_false"])`,
      `random.randint(1, 3)` marks and, for an mcq question,
      `random.randint(3, 4)` answers of which `correct` is the right one; for
      a true/false question, whether "True" is the right answer. */
  datatype QuestionDraw = QuestionDraw(
    questionType: QuestionType,
    marks: nat,
    answerCount: nat,
    correct: nat,
    trueCorrect: bool)

  /** The draws for one quiz: `random.randint(15, 45)` minutes and
      `random.randint(2, 4)` questions. */
  datatype QuizDraw = QuizDraw(timeLimit: nat, questions: seq<QuestionDraw>)

  predicate ValidQuestionDraw(d: QuestionDraw) {
    && 1 <= d.marks <= 3
    && (d.questionType == Mcq ==> 3 <= d.answerCount <= 4 && d.correct < d.answerCount)
  }

  predicate ValidQuizDraw(d: QuizDraw) {
    && 15 <= d.timeLimit <= 45
    && 2 <= |d.questions| <= 4
    && forall j :: 0 <= j < |d.questions| ==> ValidQuestionDraw(d.questions[j])
  }

  /** One course's quizzes: `random.randint(1, 3)` of them. */
  predicate ValidQuizDraws(ds: seq<QuizDraw>) {
    1 <= |ds| <= 3 && forall i :: 0 <= i < |ds| ==> ValidQuizDraw(ds[i])
  }

  const QuizInstructions := "Answer all questions to test your understanding"

  /** `f"Quiz {i+1}: {course.title[:30]} Assessment"` */
  function QuizTitle(i: nat, courseTitle: string): string {
    "Quiz " + Decimal(i + 1) + ": " + courseTitle[..Min(30, |courseTitle|)] + " Assessment"
  }

  const QuestionLead := "What is the main concept covered in lesson "

  /** `f"What is the main concept covered in lesson {j+1}?"` */
  function QuestionText(j: nat): string {
    QuestionLead + Decimal(j + 1) + "?"
  }

  /** `chr(65 + k)` */
  function OptionLetter(k: nat): char
    requires k < 26
  {
    (65 + k) as char
  }

  /** The answers created for an mcq question with `count` options of which
      `correct` is right. */
  function McqAnswers(question: nat, count: nat, correct: nat): seq<Answer>
    requires count <= 26
  {
    seq(count, k requires 0 <= k < count =>
      Answer(question, "Option " + [OptionLetter(k)] + ": Demo answer " + Decimal(k + 1), k == correct, k + 1))
  }

  /** The two answers created for a true/false question. */
  function TrueFalseAnswers(question: nat, trueCorrect: bool): seq<Answer> {
    [Answer(question, "True", trueCorrect, 1), Answer(question, "False", !trueCorrect, 2)]
  }

  function SeededAnswers(question: nat, d: QuestionDraw): seq<Answer>
    requires ValidQuestionDraw(d)
  {
    if d.questionType == Mcq then McqAnswers(question, d.answerCount, d.correct)
    else TrueFalseAnswers(question, d.trueCorrect)
  }

  /** The number of answers of `question` that are marked correct. */
  function CorrectAnswers(answers: seq<Answer>, question: nat): (n: nat)
    ensures n <= |answers|
  {
    if answers == [] then 0
    else
      var last := answers[|answers| - 1];
      CorrectAnswers(answers[..|answers| - 1], question) + (if last.question == question && last.isCorrect then 1 else 0)
  }

  /** `question.answers.count()` */
  function AnswerCount(answers: seq<Answer>, question: nat): (n: nat)
    ensures n <= |answers|
  {
    if answers == [] then 0
    else AnswerCount(answers[..|answers| - 1], question) + (if answers[|answers| - 1].question == question then 1 else 0)
  }

  lemma {:induction false} AnswersAppend(a: seq<Answer>, b: seq<Answer>, question: nat)
    ensures CorrectAnswers(a + b, question) == CorrectAnswers(a, question) + CorrectAnswers(b, question)
    ensures AnswerCount(a + b, question) == AnswerCount(a, question) + AnswerCount(b, question)
    decreases |b|
  {
    if b == [] {
      assert a + b == a;
    } else {
      var n := |b| - 1;
      assert (a + b)[..|a + b| - 1] == a + b[..n];
      AnswersAppend(a, b[..n], question);
    }
  }

  lemma {:induction false} NoAnswersCounted(answers: seq<Answer>, question: nat)
    requires forall k :: 0 <= k < |answers| ==> answers[k].question != question
    ensures CorrectAnswers(answers, question) == 0 && AnswerCount(answers, question) == 0
    decreases |answers|
  {
    if answers != [] {
      NoAnswersCounted(answers[..|answers| - 1], question);
    }
  }

  /** Rows that all belong to `question` are all counted for it. */
  lemma {:induction false} AllOfQuestionCounted(answers: seq<Answer>, question: nat)
    requires forall k :: 0 <= k < |answers| ==> answers[k].question == question
    ensures AnswerCount(answers, question) == |answers|
    decreases |answers|
  {
    if answers != [] {
      AllOfQuestionCounted(answers[..|answers| - 1], question);
    }
  }

  /** Among the first `m` mcq options exactly the right one, if it is among
      them, is correct. */
  lemma {:induction false} McqPrefixCorrect(question: nat, count: nat, correct: nat, m: nat)
    requires count <= 26 && m <= count
    ensures CorrectAnswers(McqAnswers(question, count, correct)[..m], question) == (if correct < m then 1 else 0)
    decreases m
  {
    var rows := McqAnswers(question, count, correct);
    if m > 0 {
      McqPrefixCorrect(question, count, correct, m - 1);
      assert rows[..m][..m - 1] == rows[..m - 1];
      assert rows[..m][m - 1] == rows[m - 1];
    }
  }

  /** A seeded question's answers: all belong to it, numbered 1..n, exactly
      one correct; an mcq question has 3 or 4 of them, a true/false question
      exactly "True" and "False". */
  lemma SeededAnswersShape(question: nat, d: QuestionDraw)
    requires ValidQuestionDraw(d)
    ensures var rows := SeededAnswers(question, d);
      && (forall k :: 0 <= k < |rows| ==> rows[k].question == question && rows[k].order == k + 1)
      && CorrectAnswers(rows, question) == 1
      && AnswerCount(rows, question) == |rows|
      && (d.questionType == Mcq ==> 3 <= |rows| <= 4)
      && (d.questionType == TrueFalse ==> |rows| == 2 && rows[0].text == "True" && rows[1].text == "False")
  {
    var rows := SeededAnswers(question, d);
    AllOfQuestionCounted(rows, question);
    if d.questionType == Mcq {
      McqPrefixCorrect(question, d.answerCount, d.correct, d.answerCount);
      assert rows[..d.answerCount] == rows;
    } else {
      assert rows[..1] == [rows[0]] && rows[..1][..0] == [];
    }
  }

  /** The answers of one question (the `if question_type == "mcq"` block). */
  method CreateAnswers(db: Store, question: nat, d: QuestionDraw)
    requires ValidQuestionDraw(d)
    modifies db
    ensures db.OnlyChanged({Answers})
    ensures db.answers == old(db.answers) + SeededAnswers(question, d)
  {
    if d.questionType == Mcq {
      ghost var rows := McqAnswers(question, d.answerCount, d.correct);
      var k := 0;
      while k < d.answerCount
        invariant 0 <= k <= d.answerCount
        invariant db.OnlyChanged({Answers})
        invariant db.answers == old(db.answers) + rows[..k]
      {
        var _ := db.AddAnswer(Answer(question, "Option " + [OptionLetter(k)] + ": Demo answer " + Decimal(k + 1),
          k == d.correct, k + 1));
        assert rows[..k + 1] == rows[..k] + [rows[k]];
        k := k + 1;
      }
      assert rows[..k] == rows;
    } else {
      var _ := db.AddAnswer(Answer(question, "True", d.trueCorrect, 1));
      var _ := db.AddAnswer(Answer(question, "False", !d.trueCorrect, 2));
    }
  }

  /** What the seed promises about question `k` in the final tables. */
  ghost predicate QuestionSeeded(questions: seq<Question>, answers: seq<Answer>, k: nat)
    requires k < |questions|
  {
    && 1 <= questions[k].marks <= 3
    && CorrectAnswers(answers, k) == 1
    && (questions[k].questionType == Mcq ==> 3 <= AnswerCount(answers, k) <= 4)
    && (questions[k].questionType == TrueFalse ==> AnswerCount(answers, k) == 2)
  }

  /** Every question refers to a saved quiz and every answer to a saved
      question. */
  ghost predicate Linked(quizzes: seq<Quiz>, questions: seq<Question>, answers: seq<Answer>) {
    && (forall k :: 0 <= k < |questions| ==> questions[k].quiz < |quizzes|)
    && (forall a :: 0 <= a < |answers| ==> answers[a].question < |questions|)
  }

  /** Answers appended for a new question leave the counts of every other
      question as they were; the new question's counts are those of its own
      rows. */
  lemma NewQuestionAnswers(answers: seq<Answer>, questionCount: nat, rows: seq<Answer>)
    requires forall a :: 0 <= a < |answers| ==> answers[a].question < questionCount
    requires forall k :: 0 <= k < |rows| ==> rows[k].question == questionCount
    ensures CorrectAnswers(answers + rows, questionCount) == CorrectAnswers(rows, questionCount)
    ensures AnswerCount(answers + rows, questionCount) == AnswerCount(rows, questionCount)
    ensures forall k :: k != questionCount ==>
      CorrectAnswers(answers + rows, k) == CorrectAnswers(answers, k) && AnswerCount(answers + rows, k) == AnswerCount(answers, k)
  {
    NoAnswersCounted(answers, questionCount);
    AnswersAppend(answers, rows, questionCount);
    forall k | k != questionCount
      ensures CorrectAnswers(answers + rows, k) == CorrectAnswers(answers, k)
      ensures AnswerCount(answers + rows, k) == AnswerCount(answers, k)
    {
      NoAnswersCounted(rows, k);
      AnswersAppend(answers, rows, k);
    }
  }

  /** The `j`-th question row the seed creates for a quiz. */
  function SeededQuestion(quiz: nat, j: nat, d: QuestionDraw): Question {
    Question(quiz, QuestionText(j), d.questionType, d.marks, j + 1)
  }

  /** One question and its answers (the body of the `for j` loop). */
  method CreateQuestion(db: Store, quiz: nat, j: nat, d: QuestionDraw) returns (id: nat, question: Question)
    requires ValidQuestionDraw(d)
    requires forall a :: 0 <= a < |db.answers| ==> db.answers[a].question < |db.questions|
    modifies db
    ensures db.OnlyChanged({Questions, Answers})
    ensures id == |old(db.questions)| && db.questions == old(db.questions) + [question]
    ensures question == SeededQuestion(quiz, j, d)
    ensures AnswersAppended(db.answers, old(db.answers), |db.questions|)
    ensures CorrectAnswers(db.answers, id) == 1
    ensures d.questionType == Mcq ==> 3 <= AnswerCount(db.answers, id) <= 4
    ensures d.questionType == TrueFalse ==> AnswerCount(db.answers, id) == 2
    ensures AnswerCountsKept(db.answers, old(db.answers), id)
  {
    question := SeededQuestion(quiz, j, d);
    id := db.AddQuestion(question);
    SeededAnswersShape(id, d);
    NewQuestionAnswers(db.answers, id, SeededAnswers(id, d));
    CreateAnswers(db, id, d);
  }

  /** The questions created for a quiz, in order. */
  function SeededQuestions(quiz: nat, ds: seq<QuestionDraw>): seq<Question> {
    seq(|ds|, j requires 0 <= j < |ds| => SeededQuestion(quiz, j, ds[j]))
  }

  /** The seed's running `total_quiz_marks`. */
  function MarksSum(ds: seq<QuestionDraw>): nat {
    if ds == [] then 0 else MarksSum(ds[..|ds| - 1]) + ds[|ds| - 1].marks
  }

  /** A quiz's seeded questions total the drawn marks and number as many as
      were drawn. */
  lemma {:induction false} SeededQuestionsTotal(quiz: nat, ds: seq<QuestionDraw>)
    ensures TotalMarks(SeededQuestions(quiz, ds), quiz) == MarksSum(ds)
    ensures QuestionCount(SeededQuestions(quiz, ds), quiz) == |ds|
    decreases |ds|
  {
    if ds != [] {
      var n := |ds| - 1;
      var rows := SeededQuestions(quiz, ds);
      assert rows[..n] == SeededQuestions(quiz, ds[..n]);
      SeededQuestionsTotal(quiz, ds[..n]);
    }
  }

  /** Questions of quiz `id` appended to the table leave every other quiz's
      total and count as they were. */
  lemma OtherQuizzesKept(questions: seq<Question>, rows: seq<Question>, id: nat)
    requires forall k :: 0 <= k < |rows| ==> rows[k].quiz == id
    ensures forall q :: q != id ==>
      TotalMarks(questions + rows, q) == TotalMarks(questions, q)
      && QuestionCount(questions + rows, q) == QuestionCount(questions, q)
  {
    forall q | q != id
      ensures TotalMarks(questions + rows, q) == TotalMarks(questions, q)
      ensures QuestionCount(questions + rows, q) == QuestionCount(questions, q)
    {
      NoQuestionsNoMarks(rows, q);
      QuestionsAppend(questions, rows, q);
    }
  }

  /** Every question from `k0` on is seeded as QuestionSeeded says. */
  ghost predicate QuestionsSeededFrom(questions: seq<Question>, answers: seq<Answer>, k0: nat) {
    forall k :: k0 <= k < |questions| ==> QuestionSeeded(questions, answers, k)
  }

  /** The answer counts of the first `n` questions are the same in both
      answer tables. */
  ghost predicate AnswerCountsKept(answers: seq<Answer>, before: seq<Answer>, n: nat) {
    forall k :: 0 <= k < n ==>
      CorrectAnswers(answers, k) == CorrectAnswers(before, k)
      && AnswerCount(answers, k) == AnswerCount(before, k)
  }

  /** Answers only appended to, each referring to a saved question. */
  ghost predicate AnswersAppended(answers: seq<Answer>, before: seq<Answer>, questionCount: nat) {
    && |before| <= |answers| && answers[..|before|] == before
    && (forall a :: 0 <= a < |answers| ==> answers[a].question < questionCount)
  }

  /** Questions seeded from `k0` stay so when more seeded questions are
      appended and the answer counts of the earlier ones are kept. */
  lemma SeededSurvivesAppend(qs: seq<Question>, rows: seq<Question>, as0: seq<Answer>, as1: seq<Answer>, k0: nat)
    requires k0 <= |qs|
    requires QuestionsSeededFrom(qs, as0, k0)
    requires AnswerCountsKept(as1, as0, |qs|)
    requires QuestionsSeededFrom(qs + rows, as1, |qs|)
    ensures QuestionsSeededFrom(qs + rows, as1, k0)
  {
    forall k | k0 <= k < |qs + rows| ensures QuestionSeeded(qs + rows, as1, k) {
      if k < |qs| {
        assert QuestionSeeded(qs, as0, k);
        assert (qs + rows)[k] == qs[k];
      }
    }
  }

  lemma CountsKeptTransitive(as2: seq<Answer>, as1: seq<Answer>, as0: seq<Answer>, n: nat, m: nat)
    requires n <= m
    requires AnswerCountsKept(as1, as0, n)
    requires AnswerCountsKept(as2, as1, m)
    ensures AnswerCountsKept(as2, as0, n)
  {
  }

  lemma SeededQuestionsStep(quiz: nat, ds: seq<QuestionDraw>, j: nat)
    requires j < |ds|
    ensures SeededQuestions(quiz, ds)[j] == SeededQuestion(quiz, j, ds[j])
    ensures MarksSum(ds[..j + 1]) == MarksSum(ds[..j]) + ds[j].marks
  {
    assert ds[..j + 1][..j] == ds[..j];
  }

  lemma AnswersAppendedTransitive(as2: seq<Answer>, as1: seq<Answer>, as0: seq<Answer>, n: nat, m: nat)
    requires n <= m
    requires AnswersAppended(as1, as0, n)
    requires AnswersAppended(as2, as1, m)
    ensures AnswersAppended(as2, as0, m)
  {
    assert as2[..|as0|] == as2[..|as1|][..|as0|];
  }

  /** The inner `for j` loop: the questions of quiz `quiz` with their answers,
      and the running `total_quiz_marks`. */
  method CreateQuestions(db: Store, quiz: nat, ds: seq<QuestionDraw>) returns (totalQuizMarks: nat)
    requires forall j :: 0 <= j < |ds| ==> ValidQuestionDraw(ds[j])
    requires forall a :: 0 <= a < |db.answers| ==> db.answers[a].question < |db.questions|
    modifies db
    ensures db.OnlyChanged({Questions, Answers})
    ensures db.questions == old(db.questions) + SeededQuestions(quiz, ds)
    ensures totalQuizMarks == MarksSum(ds)
    ensures AnswersAppended(db.answers, old(db.answers), |db.questions|)
    ensures QuestionsSeededFrom(db.questions, db.answers, |old(db.questions)|)
    ensures AnswerCountsKept(db.answers, old(db.answers), |old(db.questions)|)
  {
    ghost var rows := SeededQuestions(quiz, ds);
    ghost var base := |db.questions|;
    totalQuizMarks := 0;
    var j := 0;
    while j < |ds|
      invariant 0 <= j <= |ds|
      invariant db.OnlyChanged({Questions, Answers})
      invariant db.questions == old(db.questions) + rows[..j]
      invariant totalQuizMarks == MarksSum(ds[..j])
      invariant AnswersAppended(db.answers, old(db.answers), |db.questions|)
      invariant QuestionsSeededFrom(db.questions, db.answers, base)
      invariant AnswerCountsKept(db.answers, old(db.answers), base)
    {
      ghost var answersBefore := db.answers;
      ghost var questionsBefore := db.questions;
      var qid, question := CreateQuestion(db, quiz, j, ds[j]);
      totalQuizMarks := totalQuizMarks + question.marks;
      SeededQuestionsStep(quiz, ds, j);
      AppendedRowStep(old(db.questions), rows, j);
      AnswersAppendedTransitive(db.answers, answersBefore, old(db.answers), |questionsBefore|, |db.questions|);
      SeededSurvivesAppend(questionsBefore, [question], answersBefore, db.answers, base);
      CountsKeptTransitive(db.answers, answersBefore, old(db.answers), base, qid);
      j := j + 1;
    }
    assert rows[..j] == rows;
    assert ds[..j] == ds;
  }

  /** What the seed promises about the quizzes from `q0` and the questions
      from `k0` on: each quiz published, its total the sum of its questions'
      marks, with 2 to 4 questions; each question as QuestionSeeded says. */
  ghost predicate QuizzesSeeded(quizzes: seq<Quiz>, questions: seq<Question>, answers: seq<Answer>, q0: nat, k0: nat) {
    && (forall q :: q0 <= q < |quizzes| ==>
          quizzes[q].isPublished && quizzes[q].totalMarks == TotalMarks(questions, q)
          && 2 <= QuestionCount(questions, q) <= 4)
    && QuestionsSeededFrom(questions, answers, k0)
  }

  /** Questions appended to the table of a store whose quizzes only grew
      stay linked when they refer to saved quizzes. */
  lemma LinkedAfterAppend(quizzes: seq<Quiz>, qs: seq<Question>, rows: seq<Question>, answers: seq<Answer>, n: nat)
    requires n <= |quizzes|
    requires forall k :: 0 <= k < |qs| ==> qs[k].quiz < n
    requires forall k :: 0 <= k < |rows| ==> rows[k].quiz < n
    requires forall a :: 0 <= a < |answers| ==> answers[a].question < |qs + rows|
    ensures Linked(quizzes, qs + rows, answers)
  {
    forall k | 0 <= k < |qs + rows| ensures (qs + rows)[k].quiz < |quizzes| {
      if k >= |qs| {
        assert (qs + rows)[k] == rows[k - |qs|];
      }
    }
  }

  /** A new quiz appended with its questions keeps QuizzesSeeded when the
      earlier quizzes' totals and counts are unchanged. */
  lemma QuizzesSeededAfterAppend(quizzes0: seq<Quiz>, questions0: seq<Question>, answers0: seq<Answer>,
                                 quizzes: seq<Quiz>, questions: seq<Question>, answers: seq<Answer>, q0: nat, k0: nat)
    requires q0 <= |quizzes0| && |quizzes| == |quizzes0| + 1 && quizzes[..|quizzes0|] == quizzes0
    requires QuizzesSeeded(quizzes0, questions0, answers0, q0, k0)
    requires forall q :: 0 <= q < |quizzes0| ==>
      TotalMarks(questions, q) == TotalMarks(questions0, q)
      && QuestionCount(questions, q) == QuestionCount(questions0, q)
    requires quizzes[|quizzes0|].isPublished
    requires quizzes[|quizzes0|].totalMarks == TotalMarks(questions, |quizzes0|)
    requires 2 <= QuestionCount(questions, |quizzes0|) <= 4
    requires QuestionsSeededFrom(questions, answers, k0)
    ensures QuizzesSeeded(quizzes, questions, answers, q0, k0)
  {
    forall q | q0 <= q < |quizzes|
      ensures quizzes[q].isPublished && quizzes[q].totalMarks == TotalMarks(questions, q)
      ensures 2 <= QuestionCount(questions, q) <= 4
    {
      if q < |quizzes0| {
        assert quizzes[q] == quizzes0[q];
      }
    }
  }

  /** The quiz row the seed creates for the `i`-th quiz of a course. */
  function SeededQuiz(course: nat, courseTitle: string, i: nat, timeLimit: nat, total: nat): Quiz {
    Quiz(course, None, QuizTitle(i, courseTitle), QuizInstructions, timeLimit, total, true)
  }

  /** The quizzes the seed creates for one course, in order. */
  function SeededQuizzes(course: nat, courseTitle: string, ds: seq<QuizDraw>): seq<Quiz> {
    seq(|ds|, i requires 0 <= i < |ds| => SeededQuiz(course, courseTitle, i, ds[i].timeLimit, MarksSum(ds[i].questions)))
  }

  /** The quizzes of every course in `ids`, course by course. */
  function QuizPlan(table: seq<Course>, ids: seq<nat>, draws: seq<seq<QuizDraw>>): seq<seq<Quiz>>
    requires |draws| == |ids|
    requires forall c :: 0 <= c < |ids| ==> ids[c] < |table|
  {
    seq(|ids|, c requires 0 <= c < |ids| => SeededQuizzes(ids[c], table[ids[c]].title, draws[c]))
  }

  lemma QuizPlanStep(table: seq<Course>, ids: seq<nat>, draws: seq<seq<QuizDraw>>, c: nat)
    requires |draws| == |ids| && c < |ids|
    requires forall k :: 0 <= k < |ids| ==> ids[k] < |table| && ValidQuizDraws(draws[k])
    ensures QuizPlan(table, ids, draws)[c] == SeededQuizzes(ids[c], table[ids[c]].title, draws[c])
    ensures 1 <= |draws[c]| <= 3
  {
  }

  /** Questions worth one to three marks each total between one and three
      marks per question. */
  lemma {:induction false} MarksSumBounds(ds: seq<QuestionDraw>)
    requires forall j :: 0 <= j < |ds| ==> ValidQuestionDraw(ds[j])
    ensures |ds| <= MarksSum(ds) <= 3 * |ds|
    decreases |ds|
  {
    if ds != [] {
      MarksSumBounds(ds[..|ds| - 1]);
    }
  }

  /** One course's seeded quizzes: one to three of them, all published, in
      the course, numbered from 1, with the drawn time limit and a total of
      2 to 12 marks. */
  lemma SeededQuizzesShape(course: nat, courseTitle: string, ds: seq<QuizDraw>)
    requires ValidQuizDraws(ds)
    ensures var rows := SeededQuizzes(course, courseTitle, ds);
      && 1 <= |rows| <= 3
      && (forall i :: 0 <= i < |rows| ==>
            rows[i].course == course && rows[i].lesson.None? && rows[i].isPublished
            && rows[i].title == QuizTitle(i, courseTitle) && 15 <= rows[i].timeLimit <= 45
            && 2 <= rows[i].totalMarks <= 12)
  {
    forall i | 0 <= i < |ds| ensures 2 <= MarksSum(ds[i].questions) <= 12 {
      MarksSumBounds(ds[i].questions);
    }
  }

  /** `Quiz.objects.create(...)` with total 0, before any question exists. */
  method StartQuiz(db: Store, course: nat, courseTitle: string, i: nat, timeLimit: nat) returns (id: nat)
    requires db.QuestionsHaveQuizzes()
    modifies db
    ensures db.OnlyChanged({Quizzes})
    ensures id == |old(db.quizzes)| && db.quizzes == old(db.quizzes) + [SeededQuiz(course, courseTitle, i, timeLimit, 0)]
    ensures TotalMarks(db.questions, id) == 0 && QuestionCount(db.questions, id) == 0
  {
    NoQuestionsNoMarks(db.questions, |db.quizzes|);
    id := db.SaveQuiz(SeededQuiz(course, courseTitle, i, timeLimit, 0), None);
  }

  /** `quiz.total_marks = total_quiz_marks; quiz.save(update_fields=[...])`:
      Quiz.save recomputes the total from the saved questions. */
  method FinishQuiz(db: Store, id: nat, course: nat, courseTitle: string, i: nat, timeLimit: nat, total: nat)
    requires id < |db.quizzes| && db.quizzes[id] == SeededQuiz(course, courseTitle, i, timeLimit, 0)
    requires TotalMarks(db.questions, id) == total
    modifies db
    ensures db.OnlyChanged({Quizzes})
    ensures db.quizzes == old(db.quizzes)[id := SeededQuiz(course, courseTitle, i, timeLimit, total)]
  {
    var _ := db.SaveQuiz(SeededQuiz(course, courseTitle, i, timeLimit, total), Some(id));
  }

  /** One quiz, its questions and their answers (the body of the `for i`
      loop). The quiz is created with total 0, the questions and answers
      follow, and the final save recomputes the total from the saved
      questions: it equals the seed's own running sum. */
  method CreateQuiz(db: Store, course: nat, courseTitle: string, i: nat, d: QuizDraw, ghost q0: nat, ghost k0: nat)
    returns (id: nat)
    requires ValidQuizDraw(d)
    requires Linked(db.quizzes, db.questions, db.answers)
    requires q0 <= |db.quizzes| && k0 <= |db.questions|
    requires QuizzesSeeded(db.quizzes, db.questions, db.answers, q0, k0)
    modifies db
    ensures db.OnlyChanged({Quizzes, Questions, Answers})
    ensures Linked(db.quizzes, db.questions, db.answers)
    ensures QuizzesSeeded(db.quizzes, db.questions, db.answers, q0, k0)
    ensures id == |old(db.quizzes)| && db.quizzes == old(db.quizzes) + [SeededQuiz(course, courseTitle, i, d.timeLimit, MarksSum(d.questions))]
    ensures db.questions == old(db.questions) + SeededQuestions(id, d.questions)
    ensures |old(db.answers)| <= |db.answers| && db.answers[..|old(db.answers)|] == old(db.answers)
    ensures forall q :: q != id ==>
      TotalMarks(db.questions, q) == TotalMarks(old(db.questions), q)
      && QuestionCount(db.questions, q) == QuestionCount(old(db.questions), q)
  {
    id := StartQuiz(db, course, courseTitle, i, d.timeLimit);
    ghost var rows := SeededQuestions(id, d.questions);
    ghost var quizzes0 := db.quizzes;
    ghost var questions0 := db.questions;
    ghost var answers0 := db.answers;
    var totalQuizMarks := CreateQuestions(db, id, d.questions);
    assert db.quizzes == quizzes0;
    SeededQuestionsTotal(id, d.questions);
    QuestionsAppend(questions0, rows, id);
    OtherQuizzesKept(questions0, rows, id);
    SeededSurvivesAppend(questions0, rows, answers0, db.answers, k0);
    FinishQuiz(db, id, course, courseTitle, i, d.timeLimit, totalQuizMarks);
    assert db.quizzes == old(db.quizzes) + [SeededQuiz(course, courseTitle, i, d.timeLimit, totalQuizMarks)];
    LinkedAfterAppend(db.quizzes, questions0, rows, db.answers, |db.quizzes|);
    QuizzesSeededAfterAppend(old(db.quizzes), old(db.questions), old(db.answers),
                             db.quizzes, db.questions, db.answers, q0, k0);
  }

  /** The totals and question counts of the first `n` quizzes are the same
      over both question tables. */
  ghost predicate QuizTotalsKept(questions: seq<Question>, before: seq<Question>, n: nat) {
    forall q :: 0 <= q < n ==>
      TotalMarks(questions, q) == TotalMarks(before, q)
      && QuestionCount(questions, q) == QuestionCount(before, q)
  }

  /** `before` is a prefix of `s`: rows were only appended. */
  ghost predicate Grown<T>(s: seq<T>, before: seq<T>) {
    |before| <= |s| && s[..|before|] == before
  }

  lemma AppendGrows<T>(a: seq<T>, b: seq<T>)
    ensures Grown(a + b, a)
  {
    assert (a + b)[..|a|] == a;
  }

  lemma AppendAssociates<T>(a: seq<T>, b: seq<T>, c: seq<T>)
    ensures a + (b + c) == (a + b) + c
  {
  }

  lemma GrownTransitive<T>(s2: seq<T>, s1: seq<T>, s0: seq<T>)
    requires Grown(s1, s0) && Grown(s2, s1)
    ensures Grown(s2, s0)
  {
    assert s2[..|s0|] == s2[..|s1|][..|s0|];
  }

  /** The quizzes of one course (the `for i in range(num_quizzes)` loop):
      the `i`-th new quiz is the seeded quiz `i` with the drawn time limit
      and its questions' total. */
  method CreateCourseQuizzes(db: Store, course: nat, ds: seq<QuizDraw>, ghost q0: nat, ghost k0: nat)
    returns (n: nat)
    requires course < |db.courses|
    requires forall i :: 0 <= i < |ds| ==> ValidQuizDraw(ds[i])
    requires Linked(db.quizzes, db.questions, db.answers)
    requires q0 <= |db.quizzes| && k0 <= |db.questions|
    requires QuizzesSeeded(db.quizzes, db.questions, db.answers, q0, k0)
    modifies db
    ensures db.OnlyChanged({Quizzes, Questions, Answers})
    ensures Linked(db.quizzes, db.questions, db.answers)
    ensures QuizzesSeeded(db.quizzes, db.questions, db.answers, q0, k0)
    ensures n == |ds| && Grown(db.quizzes, old(db.quizzes))
    ensures db.quizzes == old(db.quizzes) + SeededQuizzes(course, db.courses[course].title, ds)
    ensures Grown(db.questions, old(db.questions)) && Grown(db.answers, old(db.answers))
    ensures QuizTotalsKept(db.questions, old(db.questions), |old(db.quizzes)|)
  {
    var title := db.courses[course].title;
    ghost var rows := SeededQuizzes(course, title, ds);
    ghost var base := |db.quizzes|;
    n := 0;
    var i := 0;
    while i < |ds|
      invariant 0 <= i <= |ds| && n == i
      invariant db.OnlyChanged({Quizzes, Questions, Answers})
      invariant Linked(db.quizzes, db.questions, db.answers)
      invariant QuizzesSeeded(db.quizzes, db.questions, db.answers, q0, k0)
      invariant db.quizzes == old(db.quizzes) + rows[..i] && Grown(db.quizzes, old(db.quizzes))
      invariant Grown(db.questions, old(db.questions)) && Grown(db.answers, old(db.answers))
      invariant QuizTotalsKept(db.questions, old(db.questions), base)
    {
      ghost var quizzes1 := db.quizzes;
      ghost var questions1 := db.questions;
      ghost var answers1 := db.answers;
      AppendedRowStep(old(db.quizzes), rows, i);
      var id := CreateQuiz(db, course, title, i, ds[i], q0, k0);
      GrownTransitive(db.quizzes, quizzes1, old(db.quizzes));
      GrownTransitive(db.questions, questions1, old(db.questions));
      GrownTransitive(db.answers, answers1, old(db.answers));
      n := n + 1;
      i := i + 1;
    }
    assert rows[..i] == rows;
  }

  /** Every quiz the plan's first `k` courses create belongs to one of the
      seeded courses. */
  lemma {:induction false} QuizPlanCourses(table: seq<Course>, ids: seq<nat>, draws: seq<seq<QuizDraw>>, k: nat)
    requires |draws| == |ids| && k <= |ids|
    requires forall c :: 0 <= c < |ids| ==> ids[c] < |table|
    ensures forall q :: 0 <= q < |Concat(QuizPlan(table, ids, draws)[..k])| ==>
      Concat(QuizPlan(table, ids, draws)[..k])[q].course in ids
    decreases k
  {
    if k > 0 {
      var plan := QuizPlan(table, ids, draws);
      QuizPlanCourses(table, ids, draws, k - 1);
      ConcatStep(plan, k - 1);
      var before: seq<Quiz>, group: seq<Quiz> := Concat(plan[..k - 1]), plan[k - 1];
      forall q | 0 <= q < |before + group| ensures (before + group)[q].course in ids {
        if q >= |before| {
          assert group[q - |before|].course == ids[k - 1];
        }
      }
    }
  }

  /** `_create_quizzes_fixed`: one to three quizzes per course, each
      with two to four questions. Returns how many quizzes were created. */
  method CreateQuizzes(db: Store, courses: seq<nat>, draws: seq<seq<QuizDraw>>) returns (total: nat)
    requires |draws| == |courses|
    requires forall c :: 0 <= c < |courses| ==> courses[c] < |db.courses| && ValidQuizDraws(draws[c])
    requires Linked(db.quizzes, db.questions, db.answers)
    modifies db
    ensures db.OnlyChanged({Quizzes, Questions, Answers})
    ensures Linked(db.quizzes, db.questions, db.answers)
    ensures db.quizzes == old(db.quizzes) + Concat(QuizPlan(db.courses, courses, draws))
    ensures total == |db.quizzes| - |old(db.quizzes)| && |courses| <= total <= 3 * |courses|
    ensures QuizzesSeeded(db.quizzes, db.questions, db.answers, |old(db.quizzes)|, |old(db.questions)|)
    ensures forall q :: |old(db.quizzes)| <= q < |db.quizzes| ==> db.quizzes[q].course in courses
    ensures Grown(db.quizzes, old(db.quizzes)) && Grown(db.questions, old(db.questions)) && Grown(db.answers, old(db.answers))
    ensures QuizTotalsKept(db.questions, old(db.questions), |old(db.quizzes)|)
  {
    ghost var q0 := |db.quizzes|;
    ghost var k0 := |db.questions|;
    ghost var plan := QuizPlan(db.courses, courses, draws);
    total := 0;
    var c := 0;
    while c < |courses|
      invariant 0 <= c <= |courses|
      invariant db.OnlyChanged({Quizzes, Questions, Answers})
      invariant Linked(db.quizzes, db.questions, db.answers)
      invariant db.quizzes == old(db.quizzes) + Concat(plan[..c])
      invariant total == |db.quizzes| - q0 && c <= total <= 3 * c
      invariant QuizzesSeeded(db.quizzes, db.questions, db.answers, q0, k0)
      invariant Grown(db.questions, old(db.questions)) && Grown(db.answers, old(db.answers))
      invariant QuizTotalsKept(db.questions, old(db.questions), q0)
    {
      ghost var quizzes1 := db.quizzes;
      ghost var questions1 := db.questions;
      ghost var answers1 := db.answers;
      QuizPlanStep(db.courses, courses, draws, c);
      AppendedGroupStep(old(db.quizzes), plan, c);
      var n := CreateCourseQuizzes(db, courses[c], draws[c], q0, k0);
      GrownTransitive(db.questions, questions1, old(db.questions));
      GrownTransitive(db.answers, answers1, old(db.answers));
      total := total + n;
      c := c + 1;
    }
    assert plan[..c] == plan;
    AppendGrows(old(db.quizzes), Concat(plan));
    QuizPlanCourses(db.courses, courses, draws, |courses|);
    forall q | q0 <= q < |db.quizzes| ensures db.quizzes[q].course in courses {
      assert db.quizzes[q] == Concat(plan[..c])[q - q0];
    }
  }
}
