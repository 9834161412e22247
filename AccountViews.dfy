/**
 * Decision rules inside the account and course views: signup validation,
 * the previous/next navigation of the lesson player, and the initial lesson
 * created with a new course.
 */
module AccountViews {
  import opened Wrappers
  import opened Text

  // ---------------------------------------------------------------------
  // Signup

  /** The POSTed signup fields; a missing text field reads as "", a missing
      role as None. */
  datatype SignupForm = SignupForm(
    username: string, email: string, password: string, passwordConfirm: string, role: Option<string>)

  datatype SignupError = MissingField | PasswordMismatch | PasswordTooShort | UsernameTaken | EmailTaken

  datatype SignupOutcome =
    | Rejected(error: SignupError, shownRole: string)
    | Created(username: string, email: string, password: string, role: string)

  /** The posted role, 'student' when none was posted. */
  function PostedRole(form: SignupForm): string
  {
    match form.role
    case Some(r) => r
    case None => "student"
  }

  /** Every field is present once the username and e-mail are stripped. */
  predicate AllPresent(form: SignupForm)
  {
    PyStrip(form.username) != "" && PyStrip(form.email) != "" && form.password != "" && form.passwordConfirm != ""
  }

  /** The signup POST as written: the checks run in order and the first that
      fails decides the error; a user (with the posted role, whatever it is) is
      created exactly when all pass. */
  function Signup(form: SignupForm, usernames: set<string>, emails: set<string>): (r: SignupOutcome)
    ensures r.Created? <==>
      AllPresent(form) && form.password == form.passwordConfirm && |form.password| >= 6
      && PyStrip(form.username) !in usernames && PyStrip(form.email) !in emails
    ensures r.Created? ==>
      r == Created(PyStrip(form.username), PyStrip(form.email), form.password, PostedRole(form))
    ensures r.Rejected? ==> r.shownRole == PostedRole(form)
    ensures r == Rejected(MissingField, PostedRole(form)) <==> !AllPresent(form)
    ensures r == Rejected(PasswordMismatch, PostedRole(form)) <==>
      AllPresent(form) && form.password != form.passwordConfirm
    ensures r == Rejected(PasswordTooShort, PostedRole(form)) <==>
      AllPresent(form) && form.password == form.passwordConfirm && |form.password| < 6
    ensures r == Rejected(UsernameTaken, PostedRole(form)) <==>
      AllPresent(form) && form.password == form.passwordConfirm && |form.password| >= 6
      && PyStrip(form.username) in usernames
  {
    var username := PyStrip(form.username);
    var email := PyStrip(form.email);
    var role := PostedRole(form);
    if !AllPresent(form) then Rejected(MissingField, role)
    else if form.password != form.passwordConfirm then Rejected(PasswordMismatch, role)
    else if |form.password| < 6 then Rejected(PasswordTooShort, role)
    else if username in usernames then Rejected(UsernameTaken, role)
    else if email in emails then Rejected(EmailTaken, role)
    else Created(username, email, form.password, role)
  }

  /** Signing up twice with the same form: the second attempt finds the
      username taken. */
  lemma SignupTwiceRejected(form: SignupForm, usernames: set<string>, emails: set<string>)
    requires Signup(form, usernames, emails).Created?
    ensures var c := Signup(form, usernames, emails);
            Signup(form, usernames + {c.username}, emails + {c.email}) == Rejected(UsernameTaken, PostedRole(form))
  {
  }

  /** A signup POST that asks for the admin role gets an admin account: the
      admin filter only shapes the choices on the form page. */
  lemma SignupGrantsPostedAdmin()
    ensures Signup(SignupForm("mallory", "m@example.com", "secret1", "secret1", Some("admin")), {}, {})
      == Created("mallory", "m@example.com", "secret1", "admin")
  {
    var form := SignupForm("mallory", "m@example.com", "secret1", "secret1", Some("admin"));
    PyStripUnchanged(form.username);
    PyStripUnchanged(form.email);
    assert AllPresent(form);
  }

  /** The roles offered on the signup page. */
  const SignupRoles: set<string> := {"student", "teacher"}

  /** Signup as the role filter intends it: the same checks, and a posted role
      outside the offered ones falls back to 'student'. */
  function SignupRestricted(form: SignupForm, usernames: set<string>, emails: set<string>): (r: SignupOutcome)
    ensures r.Created? <==> Signup(form, usernames, emails).Created?
    ensures r.Created? ==> r.role in SignupRoles && r.role != "admin"
    ensures r.Created? && PostedRole(form) in SignupRoles ==> r == Signup(form, usernames, emails)
    ensures r.Rejected? ==> r == Signup(form, usernames, emails)
  {
    match Signup(form, usernames, emails)
    case Created(u, e, p, role) => Created(u, e, p, if role in SignupRoles then role else "student")
    case rejected => rejected
  }

  // ---------------------------------------------------------------------
  // Lesson navigation

  /** list.index: the first position of x. */
  function IndexIn(s: seq<int>, x: int): (i: nat)
    requires x in s
    ensures i < |s| && s[i] == x && x !in s[..i]
  {
    if s[0] == x then 0
    else
      assert s == [s[0]] + s[1..];
      var j := IndexIn(s[1..], x);
      assert s[..j + 1] == [s[0]] + s[1..][..j];
      j + 1
  }

  /** What the player shows around a lesson. */
  datatype Navigation = Navigation(number: nat, previous: Option<int>, next: Option<int>)

  /** The navigation of a lesson among its course's lessons ordered by id:
      its 1-based number, the lesson before it (none for the first) and the
      lesson after it (none for the last). */
  function Navigate(lessons: seq<int>, lesson: int): (r: Navigation)
    requires lesson in lessons
    ensures 1 <= r.number <= |lessons| && lessons[r.number - 1] == lesson
    ensures lesson !in lessons[..r.number - 1]
    ensures r.previous.None? <==> r.number == 1
    ensures r.previous.Some? ==> r.previous.value == lessons[r.number - 2]
    ensures r.next.None? <==> r.number == |lessons|
    ensures r.next.Some? ==> r.next.value == lessons[r.number]
  {
    var i := IndexIn(lessons, lesson);
    Navigation(i + 1,
               if i > 0 then Some(lessons[i - 1]) else None,
               if i < |lessons| - 1 then Some(lessons[i + 1]) else None)
  }

  /** Lesson ids are distinct. */
  predicate Distinct(s: seq<int>)
  {
    forall i, j :: 0 <= i < j < |s| ==> s[i] != s[j]
  }

  /** Stepping to the next lesson and back returns to the same lesson, one
      number further and then back. */
  lemma NextThenPrevious(lessons: seq<int>, lesson: int)
    requires Distinct(lessons) && lesson in lessons && Navigate(lessons, lesson).next.Some?
    ensures var here := Navigate(lessons, lesson);
            var there := Navigate(lessons, here.next.value);
            there.number == here.number + 1 && there.previous == Some(lesson)
  {
    var here := Navigate(lessons, lesson);
    var n := here.next.value;
    var there := Navigate(lessons, n);
    assert lessons[here.number] == n;
  }

  // ---------------------------------------------------------------------
  // The initial lesson of a new course

  /** A form value Python treats as true: present and non-empty. */
  predicate Given(v: Option<string>)
  {
    v.Some? && v.value != ""
  }

  datatype LessonDraft = LessonDraft(title: string, videoFile: Option<string>, videoUrl: Option<string>)

  /** The initial lesson: created only when a title, file or URL is given;
      titled 'Introduction' without a title; the uploaded file wins over the
      URL, so at most one video source is kept. */
  function InitialLesson(title: Option<string>, videoFile: Option<string>, videoUrl: Option<string>)
    : (r: Option<LessonDraft>)
    ensures r.Some? <==> Given(title) || Given(videoFile) || Given(videoUrl)
    ensures r.Some? ==> r.value.title == (if Given(title) then title.value else "Introduction")
    ensures r.Some? ==> r.value.title != ""
    ensures r.Some? ==> r.value.videoFile.None? || r.value.videoUrl.None?
    ensures r.Some? && Given(videoFile) ==> r.value.videoFile == videoFile && r.value.videoUrl.None?
    ensures r.Some? && !Given(videoFile) ==> r.value.videoFile.None? && r.value.videoUrl == videoUrl
  {
    if Given(title) || Given(videoFile) || Given(videoUrl) then
      Some(LessonDraft(
        if Given(title) then title.value else "Introduction",
        if Given(videoFile) then videoFile else None,
        if !Given(videoFile) then videoUrl else None))
    else None
  }
}
