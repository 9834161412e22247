/**
 * The model classes whose methods change their own fields: an enrollment and
 * its progress, a contact message and its resolution, and the count of a
 * course's active enrollments.
 */
module Models {
  import opened Wrappers
  import Sets
  import Percent

  datatype Status = InProgress | Completed | Dropped

  /** The stored progress: completed / total * 100 kept as an integer, or 100
      for a course without lessons. It stays within 0..100 when only lessons
      of the course are completed, and is 100 exactly when all of them are. */
  function Progress(completed: set<int>, lessons: set<int>): (r: int)
    ensures lessons == {} ==> r == 100
    ensures completed <= lessons ==> 0 <= r <= 100 && (r == 100 <==> completed == lessons)
  {
    Sets.SubsetCard(completed, lessons);
    if |lessons| == 0 then 100
    else
      Percent.RatioPercentIsTruncated(|completed|, |lessons|);
      Percent.RatioPercent(|completed|, |lessons|)
  }

  /** A student's enrollment in a course. */
  class Enrollment {
    const user: int
    const course: int
    const enrollDate: int
    var progressPercent: int
    var status: Status
    var completedLessons: set<int>
    var completedDate: Option<int>

    /** Enrollment.objects.create(user=..., course=...): the field defaults. */
    constructor(user: int, course: int, now: int)
      ensures this.user == user && this.course == course && enrollDate == now
      ensures progressPercent == 0 && status == InProgress
      ensures completedLessons == {} && completedDate == None
    {
      this.user := user;
      this.course := course;
      enrollDate := now;
      progressPercent := 0;
      status := InProgress;
      completedLessons := {};
      completedDate := None;
    }

    /** update_progress, given the ids of the course's lessons: only the
        progress changes. */
    method UpdateProgress(courseLessons: set<int>)
      modifies this`progressPercent
      ensures progressPercent == Progress(completedLessons, courseLessons)
      ensures completedLessons <= courseLessons ==>
        0 <= progressPercent <= 100 && (progressPercent == 100 <==> completedLessons == courseLessons)
    {
      var total := |courseLessons|;
      if total == 0 {
        progressPercent := 100;
      } else {
        var completed := |completedLessons|;
        progressPercent := Percent.RatioPercent(completed, total);
      }
    }
  }

  /** Course.get_enrolled_count: the course's enrollments still in progress. */
  function EnrolledCount(enrollments: map<(int, int), Enrollment>, course: int): (n: nat)
    reads enrollments.Values
    ensures n <= |set key | key in enrollments && key.1 == course|
  {
    var active := set key | key in enrollments && key.1 == course && enrollments[key].status == InProgress;
    Sets.SubsetCard(active, set key | key in enrollments && key.1 == course);
    |active|
  }

  /** Filing a new in-progress enrollment for the course adds one to its
      count. */
  lemma EnrolledCountInsert(enrollments: map<(int, int), Enrollment>, key: (int, int), e: Enrollment)
    requires key !in enrollments && e.status == InProgress
    ensures EnrolledCount(enrollments[key := e], key.1) == EnrolledCount(enrollments, key.1) + 1
  {
    var after := enrollments[key := e];
    var before := set k | k in enrollments && k.1 == key.1 && enrollments[k].status == InProgress;
    assert (set k | k in after && k.1 == key.1 && after[k].status == InProgress) == before + {key};
  }

  /** A message sent through the contact form. */
  class ContactMessage {
    const submittedAt: int
    var isResolved: bool
    var resolvedAt: Option<int>

    constructor(now: int)
      ensures submittedAt == now && !isResolved && resolvedAt == None
    {
      submittedAt := now;
      isResolved := false;
      resolvedAt := None;
    }

    /** mark_resolved: resolved, at the given time; resolving again keeps the
        flag set and moves the time. */
    method MarkResolved(now: int)
      modifies this
      ensures isResolved && resolvedAt == Some(now)
    {
      isResolved := true;
      resolvedAt := Some(now);
    }
  }
}
