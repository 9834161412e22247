/**
 * Enrolling in a course and completing its lessons, over the enrollment,
 * student-skill and certificate tables. Completing the last lesson of a course
 * marks the enrollment completed, grants the course's skills and issues a
 * certificate.
 */
module LearningViews {
  import opened Wrappers
  import opened Models

  /** The course data the views read: the existing courses, the course each
      lesson belongs to, and the skills each course teaches. */
  datatype Catalog = Catalog(courses: set<int>, lessonCourse: map<int, int>, courseSkills: map<int, set<int>>)

  /** The ids of a course's lessons. */
  function LessonsOf(catalog: Catalog, course: int): (r: set<int>)
    ensures forall l | l in r :: l in catalog.lessonCourse && catalog.lessonCourse[l] == course
  {
    set l | l in catalog.lessonCourse && catalog.lessonCourse[l] == course
  }

  /** Adding a lesson to a course adds exactly that lesson to the course's
      lessons, and leaves every other course's lessons as they were. */
  lemma LessonsOfAdded(catalog: Catalog, lesson: int, course: int, other: int)
    requires lesson !in catalog.lessonCourse
    ensures var added := catalog.(lessonCourse := catalog.lessonCourse[lesson := course]);
            && LessonsOf(added, course) == LessonsOf(catalog, course) + {lesson}
            && (other != course ==> LessonsOf(added, other) == LessonsOf(catalog, other))
  {
    var added := catalog.(lessonCourse := catalog.lessonCourse[lesson := course]);
    assert LessonsOf(added, course) == LessonsOf(catalog, course) + {lesson};
  }

  function SkillsOf(catalog: Catalog, course: int): set<int>
  {
    if course in catalog.courseSkills then catalog.courseSkills[course] else {}
  }

  /** What a view ends with: a 404, a redirect with a message, or the
      IntegrityError a violated unique constraint raises. NotEnrolled is the
      redirect to the course page that watch_lesson gives a user without an
      enrollment. */
  datatype Outcome =
    | NotFound
    | NotEnrolled
    | AlreadyEnrolled
    | Enrolled
    | AlreadyCompleted
    | LessonMarked
    | CourseCompleted
    | IntegrityError

  /** The (user, skill) rows that grant a user every skill of a set. */
  function Grants(user: int, skills: set<int>): (r: set<(int, int)>)
    ensures forall s :: (user, s) in r <==> s in skills
  {
    set s | s in skills :: (user, s)
  }

  /** No two certificates share a code. */
  predicate CodesUnique(certificates: map<(int, int), string>)
  {
    forall a, b | a in certificates && b in certificates && a != b :: certificates[a] != certificates[b]
  }

  /** The enrollment, student-skill and certificate tables. Keys are the
      unique_together pairs: (user, course) for enrollments and certificates,
      (user, skill) for student skills. */
  class CourseRecords {
    var enrollments: map<(int, int), Enrollment>
    var studentSkills: set<(int, int)>
    var certificates: map<(int, int), string>

    /** Each enrollment is filed under its own (user, course), and certificate
        codes are unique. */
    predicate Valid()
      reads this
    {
      (forall key | key in enrollments :: enrollments[key].user == key.0 && enrollments[key].course == key.1)
      && CodesUnique(certificates)
    }

    constructor()
      ensures Valid()
      ensures enrollments == map[] && studentSkills == {} && certificates == map[]
    {
      enrollments := map[];
      studentSkills := {};
      certificates := map[];
    }

    /** enroll_course: a 404 for an unknown course; otherwise the (user,
        course) enrollment exists afterwards, created with its defaults only if
        it was not there. Enrolling twice therefore leaves one enrollment, and
        the course's in-progress count grows by one exactly when one is
        created. */
    method Enroll(catalog: Catalog, user: int, course: int, now: int) returns (o: Outcome)
      requires Valid()
      modifies this
      ensures Valid()
      ensures studentSkills == old(studentSkills) && certificates == old(certificates)
      ensures course !in catalog.courses ==> o == NotFound && enrollments == old(enrollments)
      ensures course in catalog.courses ==> enrollments.Keys == old(enrollments).Keys + {(user, course)}
      ensures course in catalog.courses && (user, course) in old(enrollments) ==>
        o == AlreadyEnrolled && enrollments == old(enrollments)
      ensures course in catalog.courses && (user, course) !in old(enrollments) ==>
        && o == Enrolled
        && enrollments == old(enrollments)[(user, course) := enrollments[(user, course)]]
        && fresh(enrollments[(user, course)])
        && enrollments[(user, course)].status == InProgress
        && enrollments[(user, course)].progressPercent == 0
        && enrollments[(user, course)].completedLessons == {}
      ensures EnrolledCount(enrollments, course) ==
        old(EnrolledCount(enrollments, course)) + (if o == Enrolled then 1 else 0)
    {
      if course !in catalog.courses {
        return NotFound;
      }
      if (user, course) in enrollments {
        return AlreadyEnrolled;
      }
      var e := new Enrollment(user, course, now);
      EnrolledCountInsert(enrollments, (user, course), e);
      enrollments := enrollments[(user, course) := e];
      o := Enrolled;
    }

    /** The completion step both lesson views share, with the certificate
        issued at most once per (user, course): the lesson joins the completed
        set and the progress is recomputed. At 100 or more the enrollment is
        completed, every course skill is granted (the skill table is a set, so
        no grant is duplicated), and a certificate with the given code is
        issued unless the user already holds one for the course. A code already
        in use raises an IntegrityError, after the enrollment and skill changes
        have been saved. */
    method RecordCompletion(e: Enrollment, lesson: int, lessons: set<int>, skills: set<int>, code: string, now: int)
      returns (o: Outcome)
      requires Valid() && (e.user, e.course) in enrollments && enrollments[(e.user, e.course)] == e
      modifies this, e
      ensures Valid() && enrollments == old(enrollments)
      ensures e.completedLessons == old(e.completedLessons) + {lesson}
      ensures e.progressPercent == Progress(e.completedLessons, lessons)
      ensures e.progressPercent < 100 ==>
        && o == LessonMarked
        && e.status == old(e.status) && e.completedDate == old(e.completedDate)
        && studentSkills == old(studentSkills) && certificates == old(certificates)
      ensures e.progressPercent >= 100 ==>
        && e.status == Completed && e.completedDate == Some(now)
        && studentSkills == old(studentSkills) + Grants(e.user, skills)
        && (o != IntegrityError ==> (e.user, e.course) in certificates)
      ensures e.progressPercent >= 100 && (e.user, e.course) in old(certificates) ==>
        o == CourseCompleted && certificates == old(certificates)
      ensures e.progressPercent >= 100 && (e.user, e.course) !in old(certificates) ==>
        if code in old(certificates).Values
        then o == IntegrityError && certificates == old(certificates)
        else o == CourseCompleted && certificates == old(certificates)[(e.user, e.course) := code]
    {
      e.completedLessons := e.completedLessons + {lesson};
      e.UpdateProgress(lessons);
      if e.progressPercent >= 100 {
        e.status := Completed;
        e.completedDate := Some(now);
        studentSkills := studentSkills + Grants(e.user, skills);
        if (e.user, e.course) in certificates {
          o := CourseCompleted;
        } else if code in certificates.Values {
          o := IntegrityError;
        } else {
          certificates := certificates[(e.user, e.course) := code];
          o := CourseCompleted;
        }
      } else {
        o := LessonMarked;
      }
    }

    /** The completion step as the lesson views write it: Certificate.create
        runs on every completion, so it raises an IntegrityError whenever the
        user already holds a certificate for the course. */
    method RecordCompletionAsWritten(e: Enrollment, lesson: int, lessons: set<int>, skills: set<int>, code: string, now: int)
      returns (o: Outcome)
      requires Valid() && (e.user, e.course) in enrollments && enrollments[(e.user, e.course)] == e
      modifies this, e
      ensures Valid() && enrollments == old(enrollments)
      ensures e.completedLessons == old(e.completedLessons) + {lesson}
      ensures e.progressPercent == Progress(e.completedLessons, lessons)
      ensures e.progressPercent < 100 ==>
        && o == LessonMarked
        && e.status == old(e.status) && e.completedDate == old(e.completedDate)
        && studentSkills == old(studentSkills) && certificates == old(certificates)
      ensures e.progressPercent >= 100 ==>
        && e.status == Completed && e.completedDate == Some(now)
        && studentSkills == old(studentSkills) + Grants(e.user, skills)
      ensures e.progressPercent >= 100 ==>
        if (e.user, e.course) in old(certificates) || code in old(certificates).Values
        then o == IntegrityError && certificates == old(certificates)
        else o == CourseCompleted && certificates == old(certificates)[(e.user, e.course) := code]
    {
      e.completedLessons := e.completedLessons + {lesson};
      e.UpdateProgress(lessons);
      if e.progressPercent >= 100 {
        e.status := Completed;
        e.completedDate := Some(now);
        studentSkills := studentSkills + Grants(e.user, skills);
        if (e.user, e.course) in certificates || code in certificates.Values {
          o := IntegrityError;
        } else {
          certificates := certificates[(e.user, e.course) := code];
          o := CourseCompleted;
        }
      } else {
        o := LessonMarked;
      }
    }

    /** The enrollment filed under key, as a set for frames: empty when there
        is none. */
    function EnrollmentAt(key: (int, int)): set<Enrollment>
      reads this
    {
      if key in enrollments then {enrollments[key]} else {}
    }

    /** The enrollment mark_lesson_complete acts on: the user's enrollment in
        the lesson's course. */
    function MarkTarget(catalog: Catalog, user: int, lesson: int): set<Enrollment>
      reads this
    {
      if lesson in catalog.lessonCourse then EnrollmentAt((user, catalog.lessonCourse[lesson])) else {}
    }

    /** mark_lesson_complete: a 404 for an unknown lesson or a user not
        enrolled in its course; otherwise the completion step on that
        enrollment, which is the only enrollment that changes. */
    method MarkLessonComplete(catalog: Catalog, user: int, lesson: int, code: string, now: int)
      returns (o: Outcome)
      requires Valid()
      modifies this, MarkTarget(catalog, user, lesson)
      ensures Valid() && enrollments == old(enrollments)
      ensures lesson !in catalog.lessonCourse || (user, catalog.lessonCourse[lesson]) !in enrollments ==>
        && o == NotFound
        && studentSkills == old(studentSkills) && certificates == old(certificates)
      ensures lesson in catalog.lessonCourse && (user, catalog.lessonCourse[lesson]) in enrollments ==>
        var course := catalog.lessonCourse[lesson];
        var e := enrollments[(user, course)];
        && e.completedLessons == old(e.completedLessons) + {lesson}
        && e.progressPercent == Progress(e.completedLessons, LessonsOf(catalog, course))
        && (e.progressPercent < 100 ==>
              && o == LessonMarked
              && e.status == old(e.status) && e.completedDate == old(e.completedDate)
              && studentSkills == old(studentSkills) && certificates == old(certificates))
        && (e.progressPercent >= 100 ==>
              && e.status == Completed && e.completedDate == Some(now)
              && studentSkills == old(studentSkills) + Grants(user, SkillsOf(catalog, course))
              && if (user, course) in old(certificates) then o == CourseCompleted && certificates == old(certificates)
                 else if code in old(certificates).Values then o == IntegrityError && certificates == old(certificates)
                 else o == CourseCompleted && certificates == old(certificates)[(user, course) := code])
    {
      if lesson !in catalog.lessonCourse {
        return NotFound;
      }
      var course := catalog.lessonCourse[lesson];
      if (user, course) !in enrollments {
        return NotFound;
      }
      var e := enrollments[(user, course)];
      o := RecordCompletion(e, lesson, LessonsOf(catalog, course), SkillsOf(catalog, course), code, now);
    }

    /** mark_lesson_complete as written, which issues a new certificate on
        every completion. */
    method MarkLessonCompleteAsWritten(catalog: Catalog, user: int, lesson: int, code: string, now: int)
      returns (o: Outcome)
      requires Valid()
      modifies this, MarkTarget(catalog, user, lesson)
      ensures Valid() && enrollments == old(enrollments)
      ensures lesson !in catalog.lessonCourse || (user, catalog.lessonCourse[lesson]) !in enrollments ==>
        && o == NotFound
        && studentSkills == old(studentSkills) && certificates == old(certificates)
      ensures lesson in catalog.lessonCourse && (user, catalog.lessonCourse[lesson]) in enrollments ==>
        var course := catalog.lessonCourse[lesson];
        var e := enrollments[(user, course)];
        && e.completedLessons == old(e.completedLessons) + {lesson}
        && e.progressPercent == Progress(e.completedLessons, LessonsOf(catalog, course))
        && (e.progressPercent < 100 ==>
              && o == LessonMarked
              && e.status == old(e.status) && e.completedDate == old(e.completedDate)
              && studentSkills == old(studentSkills) && certificates == old(certificates))
        && (e.progressPercent >= 100 ==>
              && e.status == Completed && e.completedDate == Some(now)
              && studentSkills == old(studentSkills) + Grants(user, SkillsOf(catalog, course))
              && if (user, course) in old(certificates) || code in old(certificates).Values
                 then o == IntegrityError && certificates == old(certificates)
                 else o == CourseCompleted && certificates == old(certificates)[(user, course) := code])
    {
      if lesson !in catalog.lessonCourse {
        return NotFound;
      }
      var course := catalog.lessonCourse[lesson];
      if (user, course) !in enrollments {
        return NotFound;
      }
      var e := enrollments[(user, course)];
      o := RecordCompletionAsWritten(e, lesson, LessonsOf(catalog, course), SkillsOf(catalog, course), code, now);
    }

    /** The course exists and the lesson belongs to it. */
    predicate LessonOf(catalog: Catalog, course: int, lesson: int)
    {
      course in catalog.courses && lesson in catalog.lessonCourse && catalog.lessonCourse[lesson] == course
    }

    /** The mark_complete POST of watch_lesson: a 404 for an unknown course or
        a lesson of another course, a redirect to the course page for a user
        not enrolled, nothing at all for a lesson already completed, and
        otherwise the completion step, with the certificate issued at most
        once. Only the user's enrollment in the course changes. */
    method WatchLessonMarkComplete(catalog: Catalog, user: int, course: int, lesson: int, code: string, now: int)
      returns (o: Outcome)
      requires Valid()
      modifies this, if LessonOf(catalog, course, lesson) then EnrollmentAt((user, course)) else {}
      ensures Valid() && enrollments == old(enrollments)
      ensures !LessonOf(catalog, course, lesson) ==> o == NotFound
      ensures LessonOf(catalog, course, lesson) && (user, course) !in enrollments ==> o == NotEnrolled
      ensures o in {NotFound, NotEnrolled, AlreadyCompleted} ==>
        studentSkills == old(studentSkills) && certificates == old(certificates) && unchanged(enrollments.Values)
      ensures LessonOf(catalog, course, lesson) && (user, course) in enrollments ==>
        var e := enrollments[(user, course)];
        && (o == AlreadyCompleted <==> lesson in old(e.completedLessons))
        && (lesson !in old(e.completedLessons) ==>
              && e.completedLessons == old(e.completedLessons) + {lesson}
              && e.progressPercent == Progress(e.completedLessons, LessonsOf(catalog, course))
              && (e.progressPercent < 100 ==>
                    && o == LessonMarked
                    && e.status == old(e.status) && e.completedDate == old(e.completedDate)
                    && studentSkills == old(studentSkills) && certificates == old(certificates))
              && (e.progressPercent >= 100 ==>
                    && e.status == Completed && e.completedDate == Some(now)
                    && studentSkills == old(studentSkills) + Grants(user, SkillsOf(catalog, course))
                    && if (user, course) in old(certificates) then o == CourseCompleted && certificates == old(certificates)
                       else if code in old(certificates).Values then o == IntegrityError && certificates == old(certificates)
                       else o == CourseCompleted && certificates == old(certificates)[(user, course) := code]))
    {
      if !LessonOf(catalog, course, lesson) {
        return NotFound;
      }
      if (user, course) !in enrollments {
        return NotEnrolled;
      }
      var e := enrollments[(user, course)];
      if lesson in e.completedLessons {
        return AlreadyCompleted;
      }
      o := RecordCompletion(e, lesson, LessonsOf(catalog, course), SkillsOf(catalog, course), code, now);
    }

    /** The mark_complete POST of watch_lesson as written: Certificate.create
        runs on every completion, so completing the course again after a
        lesson was added to it raises an IntegrityError. */
    method WatchLessonMarkCompleteAsWritten(catalog: Catalog, user: int, course: int, lesson: int, code: string, now: int)
      returns (o: Outcome)
      requires Valid()
      modifies this, if LessonOf(catalog, course, lesson) then EnrollmentAt((user, course)) else {}
      ensures Valid() && enrollments == old(enrollments)
      ensures !LessonOf(catalog, course, lesson) ==> o == NotFound
      ensures LessonOf(catalog, course, lesson) && (user, course) !in enrollments ==> o == NotEnrolled
      ensures o in {NotFound, NotEnrolled, AlreadyCompleted} ==>
        studentSkills == old(studentSkills) && certificates == old(certificates) && unchanged(enrollments.Values)
      ensures LessonOf(catalog, course, lesson) && (user, course) in enrollments ==>
        var e := enrollments[(user, course)];
        && (o == AlreadyCompleted <==> lesson in old(e.completedLessons))
        && (lesson !in old(e.completedLessons) ==>
              && e.completedLessons == old(e.completedLessons) + {lesson}
              && e.progressPercent == Progress(e.completedLessons, LessonsOf(catalog, course))
              && (e.progressPercent < 100 ==>
                    && o == LessonMarked
                    && e.status == old(e.status) && e.completedDate == old(e.completedDate)
                    && studentSkills == old(studentSkills) && certificates == old(certificates))
              && (e.progressPercent >= 100 ==>
                    && e.status == Completed && e.completedDate == Some(now)
                    && studentSkills == old(studentSkills) + Grants(user, SkillsOf(catalog, course))
                    && if (user, course) in old(certificates) || code in old(certificates).Values
                       then o == IntegrityError && certificates == old(certificates)
                       else o == CourseCompleted && certificates == old(certificates)[(user, course) := code]))
    {
      if !LessonOf(catalog, course, lesson) {
        return NotFound;
      }
      if (user, course) !in enrollments {
        return NotEnrolled;
      }
      var e := enrollments[(user, course)];
      if lesson in e.completedLessons {
        return AlreadyCompleted;
      }
      o := RecordCompletionAsWritten(e, lesson, LessonsOf(catalog, course), SkillsOf(catalog, course), code, now);
    }
  }

  /** A one-lesson course, one student: marking its lesson complete twice with
      mark_lesson_complete as written completes the course and then fails on
      the certificate's (user, course) constraint. */
  method DoubleMarkAsWritten() returns (first: Outcome, second: Outcome)
    ensures first == CourseCompleted && second == IntegrityError
  {
    var records := new CourseRecords();
    var catalog := Catalog({7}, map[70 := 7], map[7 := {3}]);
    var enrolled := records.Enroll(catalog, 1, 7, 0);
    assert LessonsOf(catalog, 7) == {70};
    assert (1, 7) in records.enrollments && records.enrollments[(1, 7)].completedLessons == {};
    first := records.MarkLessonCompleteAsWritten(catalog, 1, 70, "A1B2C3D4", 1);
    assert Progress({70}, {70}) == 100;
    assert records.certificates == map[(1, 7) := "A1B2C3D4"];
    second := records.MarkLessonCompleteAsWritten(catalog, 1, 70, "E5F6A7B8", 2);
  }

  /** The same two calls with the certificate issued once: both complete the
      course, and one certificate remains. */
  method DoubleMark() returns (first: Outcome, second: Outcome, certificates: map<(int, int), string>)
    ensures first == CourseCompleted && second == CourseCompleted
    ensures certificates == map[(1, 7) := "A1B2C3D4"]
  {
    var records := new CourseRecords();
    var catalog := Catalog({7}, map[70 := 7], map[7 := {3}]);
    var enrolled := records.Enroll(catalog, 1, 7, 0);
    assert LessonsOf(catalog, 7) == {70};
    assert (1, 7) in records.enrollments && records.enrollments[(1, 7)].completedLessons == {};
    first := records.MarkLessonComplete(catalog, 1, 70, "A1B2C3D4", 1);
    assert Progress({70}, {70}) == 100;
    assert records.certificates == map[(1, 7) := "A1B2C3D4"];
    second := records.MarkLessonComplete(catalog, 1, 70, "E5F6A7B8", 2);
    certificates := records.certificates;
  }

  /** A student who has watched the only lesson of a one-lesson course to
      completion: the course is completed and one certificate is issued. */
  method CompletedOneLessonCourse() returns (records: CourseRecords, catalog: Catalog, e: Enrollment)
    ensures fresh(records) && fresh(e) && records.Valid()
    ensures catalog == Catalog({7}, map[70 := 7], map[7 := {3}]) && LessonsOf(catalog, 7) == {70}
    ensures records.enrollments == map[(1, 7) := e] && e.completedLessons == {70}
    ensures records.certificates == map[(1, 7) := "A1B2C3D4"]
  {
    records := new CourseRecords();
    catalog := Catalog({7}, map[70 := 7], map[7 := {3}]);
    var enrolled := records.Enroll(catalog, 1, 7, 0);
    e := records.enrollments[(1, 7)];
    assert LessonsOf(catalog, 7) == {70};
    var first := records.WatchLessonMarkComplete(catalog, 1, 7, 70, "A1B2C3D4", 1);
    assert Progress({70}, {70}) == 100;
  }

  /** watch_lesson as written on a course that gains a lesson after the
      student completed it: watching the new lesson completes the course a
      second time and fails on the certificate's (user, course) constraint. */
  method NewLessonWatchAsWritten() returns (o: Outcome)
    ensures o == IntegrityError
  {
    var records, before, e := CompletedOneLessonCourse();
    var after := before.(lessonCourse := before.lessonCourse[71 := 7]);
    LessonsOfAdded(before, 71, 7, 7);
    o := records.WatchLessonMarkCompleteAsWritten(after, 1, 7, 71, "E5F6A7B8", 2);
  }

  /** The same watch with the certificate issued once: it completes the
      course again, and the first certificate stays. */
  method NewLessonWatch() returns (o: Outcome, certificates: map<(int, int), string>)
    ensures o == CourseCompleted && certificates == map[(1, 7) := "A1B2C3D4"]
  {
    var records, before, e := CompletedOneLessonCourse();
    var after := before.(lessonCourse := before.lessonCourse[71 := 7]);
    LessonsOfAdded(before, 71, 7, 7);
    o := records.WatchLessonMarkComplete(after, 1, 7, 71, "E5F6A7B8", 2);
    certificates := records.certificates;
  }
}
