/**
 * Who may reach a view: the teacher_required and admin_required decorators,
 * and the instructor check the teacher views make on the course or lesson
 * they are asked to change.
 */
module AccessGates {
  import opened Wrappers

  /** The requesting user: anonymous, or signed in with the role of their
      profile (None when the user has no profile). */
  datatype Requester = Anonymous | SignedIn(id: int, profileRole: Option<string>)

  /** What a gated view answers: a redirect to a named page, a 404, or the
      wrapped view's own response. */
  datatype Response<T> = RedirectTo(page: string) | NotFound | ViewResponse(value: T)

  /** The body shared by both decorators: login first, then the role of the
      profile; only a matching role reaches the view, which gets the request
      and its arguments unchanged. */
  function RoleRequired<A, T>(role: string, request: Requester, args: A, view: (Requester, A) -> T): (r: Response<T>)
    ensures request.Anonymous? <==> r == RedirectTo("login")
    ensures request.SignedIn? && request.profileRole != Some(role) <==> r == RedirectTo("dashboard")
    ensures r.ViewResponse? <==> request.SignedIn? && request.profileRole == Some(role)
    ensures r.ViewResponse? ==> r.value == view(request, args)
    ensures !r.NotFound?
  {
    if request.Anonymous? then RedirectTo("login")
    else if request.profileRole != Some(role) then RedirectTo("dashboard")
    else ViewResponse(view(request, args))
  }

  function TeacherRequired<A, T>(request: Requester, args: A, view: (Requester, A) -> T): Response<T>
  {
    RoleRequired("teacher", request, args, view)
  }

  function AdminRequired<A, T>(request: Requester, args: A, view: (Requester, A) -> T): Response<T>
  {
    RoleRequired("admin", request, args, view)
  }

  /** A profile has one role, so no request gets through both gates. */
  lemma NoRequesterPassesBoth<A, T>(request: Requester, args: A, teacherView: (Requester, A) -> T,
                                    adminView: (Requester, A) -> T)
    ensures !(TeacherRequired(request, args, teacherView).ViewResponse?
              && AdminRequired(request, args, adminView).ViewResponse?)
  {
  }

  // ---------------------------------------------------------------------
  // The instructor check

  /** The tables the check reads: each course's instructor and each
      lesson's course. */
  datatype Catalog = Catalog(instructor: map<int, int>, lessonCourse: map<int, int>)

  /** What a teacher view does after its gate: a 404 for an unknown course,
      a redirect to the dashboard for someone else's course, or going on to
      act on the course. */
  datatype Ownership = Missing | NotInstructor | Proceed(course: int)

  /** get_object_or_404(Course, pk=course_id), then the instructor compared
      with the requesting user. */
  function CourseOwnership(catalog: Catalog, user: int, courseId: int): (r: Ownership)
    ensures r == Missing <==> courseId !in catalog.instructor
    ensures r.Proceed? <==> courseId in catalog.instructor && catalog.instructor[courseId] == user
    ensures r.Proceed? ==> r.course == courseId
  {
    if courseId !in catalog.instructor then Missing
    else if catalog.instructor[courseId] != user then NotInstructor
    else Proceed(courseId)
  }

  /** get_object_or_404(Lesson, pk=lesson_id), then the instructor of the
      lesson's course compared with the requesting user. */
  function LessonOwnership(catalog: Catalog, user: int, lessonId: int): (r: Ownership)
    ensures r == Missing <==> lessonId !in catalog.lessonCourse
    ensures lessonId in catalog.lessonCourse && catalog.lessonCourse[lessonId] in catalog.instructor ==>
      (r.Proceed? <==> catalog.instructor[catalog.lessonCourse[lessonId]] == user)
    ensures r.Proceed? ==> r.course == catalog.lessonCourse[lessonId]
  {
    if lessonId !in catalog.lessonCourse then Missing
    else
      var course := catalog.lessonCourse[lessonId];
      if course in catalog.instructor && catalog.instructor[course] == user then Proceed(course)
      else NotInstructor
  }

  /** The rest of a teacher view on a course once the gate has passed: the
      instructor check, then the view on that course. */
  function OwnedCourseView<T>(catalog: Catalog, request: Requester, courseId: int, view: (Requester, int) -> T)
    : Response<T>
  {
    if request.Anonymous? then RedirectTo("login")
    else match CourseOwnership(catalog, request.id, courseId)
      case Missing => NotFound
      case NotInstructor => RedirectTo("dashboard")
      case Proceed(course) => ViewResponse(view(request, course))
  }

  /** The gate's answer, or the answer of the view behind it. */
  function Flatten<T>(r: Response<Response<T>>): Response<T>
  {
    match r
    case RedirectTo(page) => RedirectTo(page)
    case NotFound => NotFound
    case ViewResponse(inner) => inner
  }

  /** A teacher view on a course, gate and check together: the inner view
      runs only for a signed-in teacher who is the course's instructor, and
      then on that course; a teacher asking for an unknown course gets a 404. */
  function TeacherCourseView<T>(catalog: Catalog, request: Requester, courseId: int, view: (Requester, int) -> T)
    : (r: Response<T>)
    ensures r.ViewResponse? <==>
      && request.SignedIn? && request.profileRole == Some("teacher")
      && courseId in catalog.instructor && catalog.instructor[courseId] == request.id
    ensures r.ViewResponse? ==> r.value == view(request, courseId)
    ensures r == NotFound <==>
      request.SignedIn? && request.profileRole == Some("teacher") && courseId !in catalog.instructor
    ensures request.Anonymous? ==> r == RedirectTo("login")
  {
    Flatten(TeacherRequired(request, courseId,
      (req: Requester, id: int) => OwnedCourseView(catalog, req, id, view)))
  }
}
